/** The state of an index tree and the two splits as steps between sound states
    (src/core/IndexTree.h, src/core/LeafPage.cpp:423-663, src/core/BranchPage.cpp:233-408). */
module TreeState {
  import opened KeyOrder
  import opened GreedySplit
  import opened PageIds
  import opened Pages
  import opened Search
  import opened LeafCuts
  import opened TreeInv
  import opened TreeSplit
  import opened TreePieces
  import opened LeafChain
  import opened Ranges
  import opened SplitBuild
  import opened SplitSound
  import opened SettleOrder

  /** Overlong pages wait in the write queue. */
  ghost predicate QueueOk(t: Tree, queue: set<PageId>) {
    && queue <= t.pages.Keys
    && (forall x {:trigger t.pages[x]} :: x in t.pages && IsOverlength(t.pages[x]) ==> x in queue)
  }

  ghost predicate Sound(t: Tree, b: Bounds, chain: seq<PageId>, queue: set<PageId>, level: nat, rs: seq<IndexRange>) {
    && Inv(t, b) && ChainOk(t, b, chain) && QueueOk(t, queue) && RangesOk(t, b, level, rs)
  }

  /** Every page that is new or has changed is in the write queue. */
  ghost predicate Queued(t: Tree, t': Tree, queue': set<PageId>) {
    forall x {:trigger t'.pages[x]} :: x in t'.pages && x !in queue' ==> x in t.pages && t'.pages[x] == t.pages[x]
  }

  lemma QueuedThen(t: Tree, u: Tree, v: Tree, queue: set<PageId>, queue': set<PageId>)
    requires Queued(t, u, queue) && Queued(u, v, queue') && queue <= queue'
    ensures Queued(t, v, queue')
  {
    forall x | x in v.pages && x !in queue' ensures x in t.pages && v.pages[x] == t.pages[x] {
      assert u.pages[x] == v.pages[x];
    }
  }

  lemma QueuedMore(t: Tree, u: Tree, queue: set<PageId>, queue': set<PageId>)
    requires Queued(t, u, queue) && queue <= queue'
    ensures Queued(t, u, queue')
  {
  }

  lemma QueuedSame(t: Tree, queue: set<PageId>)
    ensures Queued(t, t, queue)
  {
  }

  /** The records of the tree, without those that only wait to be dropped. */
  ghost function Stored(t: Tree, chain: seq<PageId>): seq<Rec> {
    if Leaves(t, chain) then Live(Contents(t, chain)) else []
  }

  /** The stored records are strictly sorted: the index holds no key twice. */
  lemma StoredSorted(t: Tree, b: Bounds, chain: seq<PageId>)
    requires Inv(t, b) && ChainOk(t, b, chain)
    ensures SortedRecs(Stored(t, chain))
  {
    hide Inv, ChainOk;
    ContentsSorted(t, b, chain, |chain|);
    assert chain[..|chain|] == chain;
    LiveSorted(Contents(t, chain));
  }

  // ---------- a new root ----------

  lemma SoundGrow(t: Tree, b: Bounds, chain: seq<PageId>, queue: set<PageId>, level: nat, rs: seq<IndexRange>,
      q: PageId, e: Entry)
    requires Sound(t, b, chain, queue, level, rs) && q !in t.pages && e.child == t.root
    requires EntryFit(e) && (t.unique ==> e.sep.val == 0.0)
    ensures Sound(Grow(t, q, e), b[q := ALL], chain, queue, level, rs)
    ensures Stored(Grow(t, q, e), chain) == Stored(t, chain)
  {
    hide ContentOk, PageOk, ChainOk, RangesOk, Contents;
    var t', b' := Grow(t, q, e), b[q := ALL];
    GrowInv(t, b, q, e);
    assert LeavesKept(t, t', b, b') by { hide Inv; }
    ChainKept(t, b, t', b', chain);
    ChainLeaves(t, b, chain);
    ChainLeaves(t', b', chain);
    RangesKept(t, b, t', b', level, rs);
  }

  // ---------- what a replacement keeps ----------

  lemma QueueKept(t: Tree, t': Tree, q: PageId, i: nat, ids: seq<PageId>, es: seq<Entry>, queue: set<PageId>,
      queue': set<PageId>)
    requires Replaced(t, t', q, i, ids, es) && QueueOk(t, queue)
    requires queue <= queue' && queue' <= t'.pages.Keys && q in queue' && Elems(ids) <= queue'
    ensures QueueOk(t', queue')
  {
    hide Splice, ELens;
    forall x | x in t'.pages && IsOverlength(t'.pages[x]) ensures x in queue' {
      if x in ids {
        assert x in Elems(ids);
      } else if x != q {
        assert Moved(t, t', ids, x);
        SameCore(t.pages[x], t'.pages[x]);
      }
    }
  }

  lemma LevelPagesKept(t: Tree, b: Bounds, t': Tree, b': Bounds, q: PageId, i: nat, ids: seq<PageId>, es: seq<Entry>,
      level: nat, x: PageId)
    requires Replaced(t, t', q, i, ids, es) && Rebounded(b, b', ids, es)
    requires OnLevel(t, b, level, x) && x !in ids
    ensures OnLevel(t', b', level, x) && x in b && x in b' && b'[x] == b[x]
  {
    hide Splice, ELens;
    if x != q { assert Moved(t, t', ids, x); }
  }

  /** A split below or above the split level leaves the index ranges alone. */
  lemma RangesKeptBySplit(t: Tree, b: Bounds, t': Tree, b': Bounds, q: PageId, i: nat, ids: seq<PageId>, es: seq<Entry>,
                          level: nat, rs: seq<IndexRange>)
    requires Replaced(t, t', q, i, ids, es) && Rebounded(b, b', ids, es) && RangesOk(t, b, level, rs)
    requires rs == [] || !OnLevel(t, b, level, ids[0])
    ensures RangesOk(t', b', level, rs)
  {
    hide Splice, ELens, Moved, RangesOk;
    if rs == [] {
      NoRanges(t', b', level);
    } else {
      forall x | OnLevel(t, b, level, x) ensures OnLevel(t', b', level, x) && b'[x] == b[x] {
        LevelPagesKept(t, b, t', b', q, i, ids, es, level, x);
      }
      RangesKept(t, b, t', b', level, rs);
    }
  }

  lemma NoRanges(t: Tree, b: Bounds, level: nat)
    ensures RangesOk(t, b, level, [])
  {
  }

  // ---------- leaf splits ----------

  /** The pages hold the chunks of the records, in order. */
  ghost predicate LeafPieces(t: Tree, ids: seq<PageId>, live: seq<Rec>, cuts: seq<nat>) {
    |ids| == |cuts| && forall j :: 0 <= j < |ids| ==> ids[j] in t.pages && LeafPiece(t.pages[ids[j]], live, cuts, j)
  }

  /** The pages of this level hold the chunks of the entries, in order. */
  ghost predicate BranchPieces(t: Tree, ids: seq<PageId>, level: nat, all: seq<Entry>, cuts: seq<nat>) {
    |ids| == |cuts| && forall j :: 0 <= j < |ids| ==>
      ids[j] in t.pages && BranchPiece(t.pages[ids[j]], level, all, cuts, j)
  }

  /** A split further up leaves them alone. */
  lemma LeafPiecesKept(t: Tree, t': Tree, q: PageId, ids: seq<PageId>, live: seq<Rec>, cuts: seq<nat>)
    requires Effect(t, t', q) && Level(t.pages[q]) > 0 && LeafPieces(t, ids, live, cuts)
    ensures LeafPieces(t', ids, live, cuts)
  {
    forall j | 0 <= j < |ids| ensures ids[j] in t'.pages && LeafPiece(t'.pages[ids[j]], live, cuts, j) {
      assert LeafPiece(t.pages[ids[j]], live, cuts, j) && OldOk(t, t', q, ids[j]);
    }
  }

  lemma BranchPiecesKept(t: Tree, t': Tree, q: PageId, ids: seq<PageId>, level: nat, all: seq<Entry>, cuts: seq<nat>)
    requires Effect(t, t', q) && Level(t.pages[q]) > level && BranchPieces(t, ids, level, all, cuts)
    ensures BranchPieces(t', ids, level, all, cuts)
  {
    forall j | 0 <= j < |ids| ensures ids[j] in t'.pages && BranchPiece(t'.pages[ids[j]], level, all, cuts, j) {
      assert BranchPiece(t.pages[ids[j]], level, all, cuts, j) && OldOk(t, t', q, ids[j]);
    }
  }

  lemma SoundLeafSplit(t: Tree, b: Bounds, chain: seq<PageId>, queue: set<PageId>, level: nat, rs: seq<IndexRange>,
                       m': PageTable, q: PageId, i: nat, ids: seq<PageId>, es: seq<Entry>,
                       live: seq<Rec>, cuts: seq<nat>, clens: seq<int>, tlens: seq<int>, before: Key,
                       c: nat, queue': set<PageId>)
    requires Sound(t, b, chain, queue, level, rs)
    requires LeafSplitOf(t, m', q, i, ids, es, live, cuts, clens, tlens)
    requires GreedyCut(live, cuts, clens, tlens, LEAF_LIMITS)
    requires |ids| > 0 && ids[0] in t.pages && t.pages[ids[0]].Leaf? && live == Live(t.pages[ids[0]].recs) && |live| > 0
    requires |ids| == |es| && ids[0] in b && PieceSeps(RecKeys(live), cuts, es, before) &&
        EntriesOk(es, b[ids[0]], t.unique)
    requires c < |chain| && chain[c] == ids[0]
    requires queue <= queue' && queue' <= m'.Keys && q in queue' && Elems(ids) <= queue'
    ensures var t' := Tree(m', t.root, t.unique);
      && Sound(t', Handed(b, ids, es), ChainSplice(chain, c, ids), queue', level, rs)
      && Stored(t', ChainSplice(chain, c, ids)) == Stored(t, chain)
      && Effect(t, t', ids[0]) && LeafPieces(t', ids, live, cuts)
  {
    hide LeafSplitOf, GreedyCut, PieceSeps, EntriesOk, Inv, ChainOk, QueueOk, RangesOk, Effect, CLens, TLens, RecKeys,
        Handed, ChainSplice, Live, Contents, Replaced, Rebounded, Relinked, Leaves, OnLevel, ChunkLengths, LeafPiece,
        CutsOk;
    var t', b' := Tree(m', t.root, t.unique), Handed(b, ids, es);
    LeafSplitIds(t, m', q, i, ids, es, live, cuts, clens, tlens);
    CutLengths(live, cuts, clens, tlens, LEAF_LIMITS);
    HandedOk(b, ids, es);
    LeafReplaced(t, b, m', q, i, ids, es, live, cuts, clens, tlens);
    LeafRelinked(t, b, m', q, i, ids, es, live, cuts, clens, tlens);
    LeafSplitInv(t, b, m', q, i, ids, es, live, cuts, clens, tlens, before);
    LeafEffect(t, b, m', q, i, ids, es, live, cuts, clens, tlens);
    QueueKept(t, t', q, i, ids, es, queue, queue');
    NotOnLevel(t, b, level, ids[0]);
    RangesKeptBySplit(t, b, t', b', q, i, ids, es, level, rs);
    ChainSplit(t, b, t', b', chain, c, ids, es);
    forall j | 0 <= j < |ids| ensures ids[j] in m' && LeafPiece(m'[ids[j]], live, cuts, j) {
      LeafPieceAt(t, b, m', q, i, ids, es, live, cuts, clens, tlens, j);
    }
    PiecesAreLeaves(t', ids, live, cuts);
    SplitContents(t, b, t', chain, c, ids, live, cuts);
  }

  /** What else a leaf split leaves alone. */
  lemma LeafBeside(t: Tree, b: Bounds, m': PageTable, q: PageId, i: nat, ids: seq<PageId>, es: seq<Entry>,
                   live: seq<Rec>, cuts: seq<nat>, clens: seq<int>, tlens: seq<int>)
    requires Inv(t, b) && LeafSplitOf(t, m', q, i, ids, es, live, cuts, clens, tlens)
    ensures IsBranch(t, q) && i < |t.pages[q].entries| && q in m' && Beside(t, Tree(m', t.root, t.unique), q, ids)
    ensures es == [t.pages[q].entries[i]] ==> m'[q] == t.pages[q]
  {
    hide Inv, LeafSplitOf;
    LeafReplaced(t, b, m', q, i, ids, es, live, cuts, clens, tlens);
    ReplacedBeside(t, Tree(m', t.root, t.unique), q, i, ids, es);
  }

  lemma NotOnLevel(t: Tree, b: Bounds, level: nat, p: PageId)
    requires p in t.pages && t.pages[p].Leaf?
    ensures !OnLevel(t, b, level, p)
  {
  }

  lemma PiecesAreLeaves(t': Tree, ids: seq<PageId>, live: seq<Rec>, cuts: seq<nat>)
    requires |ids| == |cuts|
    requires forall j :: 0 <= j < |ids| ==> ids[j] in t'.pages && LeafPiece(t'.pages[ids[j]], live, cuts, j)
    ensures Leaves(t', ids)
  {
  }

  // ---------- branch splits ----------

  /** The index ranges after a split of branch page ids[0]: at the split level its new siblings join its
      range, right after it. */
  ghost predicate RangesAfter(t: Tree, b: Bounds, level: nat, rs: seq<IndexRange>, rs': seq<IndexRange>,
      ids: seq<PageId>)
    requires |ids| > 0
  {
    if rs == [] || !OnLevel(t, b, level, ids[0]) then rs' == rs
    else exists r, j ::
      && 0 <= r < |rs| && 0 <= j < |rs[r].pages| && rs[r].pages[j] == ids[0]
      && rs' == rs[r := rs[r].(pages := PagesSplice(rs[r].pages, j, ids))]
  }

  lemma RangesSplit(t: Tree, b: Bounds, t': Tree, b': Bounds, q: PageId, i: nat, ids: seq<PageId>, es: seq<Entry>,
                    level: nat, rs: seq<IndexRange>, r: nat, j: nat)
    requires Inv(t, b) && Replaced(t, t', q, i, ids, es) && Rebounded(b, b', ids, es) && RangesOk(t, b, level, rs)
    requires forall m :: 0 <= m < |ids| ==> OnLevel(t', b', level, ids[m])
    requires r < |rs| && j < |rs[r].pages| && rs[r].pages[j] == ids[0]
    ensures RangesOk(t', b', level, rs[r := rs[r].(pages := PagesSplice(rs[r].pages, j, ids))])
  {
    hide Inv, Replaced, Rebounded, Tiles, PagesSplice, OnLevel;
    var rs' := rs[r := rs[r].(pages := PagesSplice(rs[r].pages, j, ids))];
    ReplacedIds(t, b, t', b', q, i, ids, es);
    assert Borders(rs') == Borders(rs);
    forall s | 0 <= s < |rs'| ensures Tiles(t', b', level, rs'[s].pages, LoOf(rs', s), HiOf(rs', s)) {
      RangeAt(t, b, level, rs, s);
      assert LoOf(rs', s) == LoOf(rs, s) && HiOf(rs', s) == HiOf(rs, s);
      forall m | 0 <= m < |rs[s].pages| && !(s == r && m == j)
        ensures OnLevel(t', b', level, rs[s].pages[m])
        ensures rs[s].pages[m] in b && rs[s].pages[m] in b' && b'[rs[s].pages[m]] == b[rs[s].pages[m]]
      {
        OncePerLevel(t, b, level, rs, r, j, s, m);
        TileAt(t, b, level, rs, s, m);
        OldIdsOnly(t, b, level, ids, rs[s].pages[m]);
        LevelPagesKept(t, b, t', b', q, i, ids, es, level, rs[s].pages[m]);
      }
      if s == r {
        TilesSplit(t, b, t', b', level, rs[s].pages, LoOf(rs, s), HiOf(rs, s), j, ids, es);
      } else {
        TilesMoved(t, b, t', b', level, rs[s].pages, LoOf(rs, s), HiOf(rs, s));
      }
    }
    SameTask(t, t', q, i, ids, es);
  }

  lemma SameTask(t: Tree, t': Tree, q: PageId, i: nat, ids: seq<PageId>, es: seq<Entry>)
    requires Replaced(t, t', q, i, ids, es)
    ensures t'.unique == t.unique
  {
  }

  lemma ReplacedIds(t: Tree, b: Bounds, t': Tree, b': Bounds, q: PageId, i: nat, ids: seq<PageId>, es: seq<Entry>)
    requires Replaced(t, t', q, i, ids, es) && Rebounded(b, b', ids, es)
    ensures |ids| == |es| > 0 && forall j :: 1 <= j < |ids| ==> ids[j] !in t.pages
  {
  }

  lemma OldIdsOnly(t: Tree, b: Bounds, level: nat, ids: seq<PageId>, x: PageId)
    requires |ids| > 0 && forall j :: 1 <= j < |ids| ==> ids[j] !in t.pages
    requires OnLevel(t, b, level, x) && x != ids[0]
    ensures x !in ids
  {
  }

  lemma TilesMoved(t: Tree, b: Bounds, t': Tree, b': Bounds, level: nat, ids: seq<PageId>, lo: Ext, hi: Ext)
    requires Tiles(t, b, level, ids, lo, hi)
    requires forall m :: 0 <= m < |ids| ==> OnLevel(t', b', level, ids[m]) && b'[ids[m]] == b[ids[m]]
    ensures Tiles(t', b', level, ids, lo, hi)
  {
    forall j | 0 < j < |ids| ensures Joined(b', ids, j) {
      assert Joined(b, ids, j);
    }
  }

  lemma TileAt(t: Tree, b: Bounds, level: nat, rs: seq<IndexRange>, s: nat, m: nat)
    requires RangesOk(t, b, level, rs) && s < |rs| && m < |rs[s].pages|
    ensures OnLevel(t, b, level, rs[s].pages[m])
  {
  }

  /** A tile lies within its range. */
  lemma {:induction false} TileInside(t: Tree, b: Bounds, level: nat, ids: seq<PageId>, lo: Ext, hi: Ext, m: nat)
    requires Inv(t, b) && Tiles(t, b, level, ids, lo, hi) && m < |ids|
    ensures ids[m] in b && ExtLe(lo, b[ids[m]].lo) && ExtLe(b[ids[m]].hi, hi) && ExtLt(b[ids[m]].lo, b[ids[m]].hi)
  {
    hide Inv;
    RangeProper(t, b, ids[m]);
    RangeProper(t, b, ids[0]);
    RangeProper(t, b, ids[|ids| - 1]);
    if 0 < m { TilesOrder(t, b, level, ids, lo, hi, 0, m); }
    if m < |ids| - 1 { TilesOrder(t, b, level, ids, lo, hi, m, |ids| - 1); }
  }

  /** Every page of the level stands in one range at one place. */
  lemma OncePerLevel(t: Tree, b: Bounds, level: nat, rs: seq<IndexRange>, r: nat, j: nat, s: nat, m: nat)
    requires Inv(t, b) && RangesOk(t, b, level, rs) && r < |rs| && s < |rs|
    requires j < |rs[r].pages| && m < |rs[s].pages| && (s != r || m != j)
    ensures rs[r].pages[j] != rs[s].pages[m]
  {
    hide Inv, Tiles;
    RangeAt(t, b, level, rs, r);
    RangeAt(t, b, level, rs, s);
    TileInside(t, b, level, rs[r].pages, LoOf(rs, r), HiOf(rs, r), j);
    TileInside(t, b, level, rs[s].pages, LoOf(rs, s), HiOf(rs, s), m);
    if r == s {
      if j < m { TilesOrder(t, b, level, rs[r].pages, LoOf(rs, r), HiOf(rs, r), j, m); }
      else { TilesOrder(t, b, level, rs[r].pages, LoOf(rs, r), HiOf(rs, r), m, j); }
    } else if r < s {
      BordersOrder(rs, r, s);
    } else {
      BordersOrder(rs, s, r);
    }
  }

  lemma BordersOrder(rs: seq<IndexRange>, r: nat, s: nat)
    requires SortedKeys(Borders(rs)) && r < s < |rs|
    ensures HiOf(rs, r).Fin? && LoOf(rs, s).Fin? && Le(HiOf(rs, r).k, LoOf(rs, s).k)
  {
    assert Borders(rs)[r] == rs[r].border && Borders(rs)[s - 1] == rs[s - 1].border;
  }

  lemma SoundBranchSplit(t: Tree, b: Bounds, chain: seq<PageId>, queue: set<PageId>, level: nat, rs: seq<IndexRange>,
                         m': PageTable, q: PageId, i: nat, ids: seq<PageId>, es: seq<Entry>,
                         cuts: seq<nat>, lens: seq<int>, before: Key, queue': set<PageId>, rs': seq<IndexRange>)
    requires Sound(t, b, chain, queue, level, rs)
    requires BranchSplitOf(t, m', q, i, ids, es, cuts, lens)
    requires |ids| > 0 && IsBranch(t, ids[0]) && t.pages[ids[0]].comm >= MAX_BRANCH
    requires var s := ELens(t.pages[ids[0]].entries);
      Greedy(s, s, cuts, BRANCH_LIMITS) && ChunkLengths(s, cuts, lens)
    requires |ids| == |es| && ids[0] in b
    requires PieceSeps(Seps(t.pages[ids[0]].entries), cuts, es, before) && EntriesOk(es, b[ids[0]], t.unique)
    requires queue <= queue' && queue' <= m'.Keys && q in queue' && Elems(ids) <= queue'
    requires RangesAfter(t, b, level, rs, rs', ids)
    ensures var t' := Tree(m', t.root, t.unique);
      && Sound(t', Handed(b, ids, es), chain, queue', level, rs')
      && Stored(t', chain) == Stored(t, chain)
      && Effect(t, t', ids[0]) && BranchPieces(t', ids, t.pages[ids[0]].level, t.pages[ids[0]].entries, cuts)
      && Beside(t, t', q, ids)
  {
    hide Beside, BranchSplitOf, PieceSeps, EntriesOk, Inv, ChainOk, QueueOk, RangesOk, Effect, ELens, Handed, Live,
        Contents, Replaced, Rebounded, Leaves, OnLevel, LeavesKept, ChunkLengths, Greedy, PagesSplice, BranchPiece;
    var t', b' := Tree(m', t.root, t.unique), Handed(b, ids, es);
    BranchSplitIds(t, m', q, i, ids, es, cuts, lens);
    HandedOk(b, ids, es);
    BranchReplaced(t, b, m', q, i, ids, es, cuts, lens);
    ReplacedBeside(t, t', q, i, ids, es);
    BranchSplitInv(t, b, m', q, i, ids, es, cuts, lens, before);
    BranchEffect(t, b, m', q, i, ids, es, cuts, lens);
    forall j | 0 <= j < |ids| ensures ids[j] in m' && BranchPiece(m'[ids[j]], t.pages[ids[0]].level,
        t.pages[ids[0]].entries, cuts, j) {
      BranchPieceAt(t, m', q, i, ids, es, cuts, lens, j);
    }
    QueueKept(t, t', q, i, ids, es, queue, queue');
    BranchLeavesKept(t, b, m', q, i, ids, es, cuts, lens);
    ChainLeaves(t, b, chain);
    ChainKept(t, b, t', b', chain);
    ChainLeaves(t', b', chain);
    if rs == [] || !OnLevel(t, b, level, ids[0]) {
      RangesKeptBySplit(t, b, t', b', q, i, ids, es, level, rs);
    } else {
      var r, j :| 0 <= r < |rs| && 0 <= j < |rs[r].pages| && rs[r].pages[j] == ids[0]
                  && rs' == rs[r := rs[r].(pages := PagesSplice(rs[r].pages, j, ids))];
      forall m | 0 <= m < |ids| ensures OnLevel(t', b', level, ids[m]) {
        PieceOnLevel(t, b, m', b', q, i, ids, es, cuts, lens, level, m);
      }
      RangesSplit(t, b, t', b', q, i, ids, es, level, rs, r, j);
    }
  }

  lemma PieceOnLevel(t: Tree, b: Bounds, m': PageTable, b': Bounds, q: PageId, i: nat, ids: seq<PageId>, es: seq<Entry>,
                     cuts: seq<nat>, lens: seq<int>, level: nat, m: nat)
    requires BranchSplitOf(t, m', q, i, ids, es, cuts, lens) && Rebounded(b, b', ids, es)
    requires m < |ids| && OnLevel(t, b, level, ids[0])
    ensures OnLevel(Tree(m', t.root, t.unique), b', level, ids[m])
  {
    hide Splice, ELens, Adopted, OthersKept;
    assert BranchPlaced(m', t.pages[ids[0]], q, cuts, lens, ids, m);
  }
}
