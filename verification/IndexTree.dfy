/** The index tree: descent, splits and the settling of the write queue (src/core/IndexTree.cpp,
    src/core/LeafPage.cpp, src/core/BranchPage.cpp).

    Whether the lock of the free ids can be taken is left open at every allocation. */
module IndexTree {
  import opened KeyOrder
  import opened GreedySplit
  import opened PageIds
  import opened Pages
  import opened Search
  import opened LeafCuts
  import opened TreeInv
  import opened TreeSplit
  import opened TreePieces
  import opened LeafChain
  import opened Ranges
  import opened SplitBuild
  import opened SplitSound
  import opened SettleOrder
  import opened TreeState
  import opened SplitTables
  import opened ForcedSplits
  import opened LeafLevel
  import opened TreeUpdate
  import opened TreeScan
  import opened RecordUpdates
  import PageSpace

  class IndexTree {
    const unique: bool
    const store: PageSpace.PageSpace
    var pages: PageTable
    var rootPage: PageId
    var beginLeaf: PageId
    var endLeaf: PageId
    var queue: set<PageId>
    var splitLevel: nat
    var ranges: seq<IndexRange>
    ghost var bounds: Bounds
    ghost var chain: seq<PageId>

    ghost function T(): Tree
      reads this
    {
      Tree(pages, rootPage, unique)
    }

    ghost predicate Valid()
      reads this, store, store.garbage
    {
      && store.Valid() && store.indexPages == pages.Keys
      && Sound(T(), bounds, chain, queue, splitLevel, ranges)
      && |chain| > 0 && beginLeaf == chain[0] && endLeaf == chain[|chain| - 1]
    }

    ghost function Records(): seq<Rec>
      reads this
    {
      Stored(T(), chain)
    }

    /** IndexTree::CreateIndexTree: one empty leaf. */
    constructor (unique: bool)
      ensures Valid() && fresh(store) && fresh(store.garbage)
      ensures this.unique == unique && Records() == [] && queue == {} && ranges == []
      ensures OneLeaf(T(), EMPTY_LEAF) && Weighed(T(), true) && Whole(T())
    {
      hide Sound, Elems, Stored, Weighed, Whole, OneLeaf, Distinct, PageSpace.PageSpace.Valid;
      var space := new PageSpace.PageSpace();
      var ids := space.ApplyIndexPages(1, true);
      var id := ids[0];
      OneId(ids);
      this.unique := unique;
      store := space;
      pages := map[id := EMPTY_LEAF];
      rootPage, beginLeaf, endLeaf := id, id, id;
      queue, splitLevel, ranges := {}, 0, [];
      bounds := map[id := ALL];
      chain := [id];
      FirstPage(id, unique);
    }

    // ---------- searching ----------

    /** Where a search starts: with several tasks at the page of the split level that CalcIndexRange and
        GetTopPage find, with one task at the root. */
    method StartPage(p: Probe) returns (page: PageId)
      requires Valid() && ProbeOk(unique, p)
      ensures page in pages && page in bounds && Targets(p, bounds[page])
      ensures ranges == [] ==> page == rootPage
      ensures ranges != [] ==>
                forall x :: OnLevel(T(), bounds, splitLevel, x) && Targets(p, bounds[x]) <==> x == page
    {
      hide Sound, PageSpace.PageSpace.Valid, IsSlotFor, Targets, Tiles, OnLevel, LastSeps, AllHaveEntries;
      ghost var t, b := T(), bounds;
      if ranges == [] {
        page := rootPage;
        RootTargets(t, b, chain, queue, splitLevel, ranges, p);
      } else {
        SearchableBorders(t, b, chain, queue, splitLevel, ranges);
        var r := SlotFor(unique, Borders(ranges), p);
        SearchableRange(t, b, chain, queue, splitLevel, ranges, p, r);
        var seps := LastSeps(Tree(pages, rootPage, unique), ranges[r].pages);
        var j := SlotFor(unique, seps, p);
        page := ranges[r].pages[j];
        RouteTargets(t, b, chain, queue, splitLevel, ranges, p, r, j);
      }
    }

    /** SearchPage: from a page down to the leaf. */
    method SearchPage(p: Probe, page: PageId) returns (leaf: PageId, ghost path: seq<PageId>)
      requires Valid() && ProbeOk(unique, p) && page in pages && page in bounds && Targets(p, bounds[page])
      ensures PathDown(T(), bounds, p, path) && path[0] == page && path[|path| - 1] == leaf
      ensures pages[leaf].Leaf?
    {
      hide Sound, PageSpace.PageSpace.Valid, IsSlotFor, Targets;
      leaf := page;
      path := [leaf];
      while pages[leaf].Branch?
        invariant PathDown(T(), bounds, p, path) && path[0] == page && path[|path| - 1] == leaf
        decreases Level(pages[leaf])
      {
        ghost var t := T();
        SearchableSeps(t, bounds, chain, queue, splitLevel, ranges, leaf);
        var pos := SlotFor(unique, Seps(pages[leaf].entries), p);
        StepDown(t, bounds, chain, queue, splitLevel, ranges, p, leaf, pos);
        leaf := pages[leaf].entries[pos].child;
        path := path + [leaf];
      }
    }

    /** A whole search: it reads through a null pointer exactly when it compares a record without bytes in its leaf.
        Otherwise the position found is the lower bound of the probe among all records, and a record search finds the
        record if any leaf holds it. */
    method Find(p: Probe) returns (isNull: bool, leaf: PageId, pos: nat, bFind: bool, ghost c: nat)
      requires Valid() && ProbeOk(unique, p)
      ensures leaf in pages && pages[leaf].Leaf? && leaf in bounds && Targets(p, bounds[leaf])
      ensures Leaves(T(), chain) && c < |chain| && chain[c] == leaf && Leaves(T(), chain[..c])
      ensures isNull <==> HitsNull(unique, pages[leaf].recs, p)
      ensures isNull <==> SearchNull(T(), bounds, p)
      ensures !isNull ==>
                && pos <= |pages[leaf].recs| && IsLowerBound(pages[leaf].recs, p, pos)
                && IsLowerBound(Contents(T(), chain), p, |Contents(T(), chain[..c])| + pos)
                && (bFind <==> pos < |pages[leaf].recs| && Matches(pages[leaf].recs[pos].key, p))
                && (p.ByRecord? ==> (bFind <==> exists x :: x in Contents(T(), chain) && x.key == p.k))
    {
      hide Sound, PageSpace.PageSpace.Valid, Targets, IsLowerBound, Contents, Leaves, PathDown, Inv, ChainOk, OnLevel,
          HitsNull, SearchNull;
      ghost var t, b := T(), bounds;
      SoundParts(t, b, chain, queue, splitLevel, ranges);
      var page := StartPage(p);
      ghost var path;
      leaf, path := SearchPage(p, page);
      PathEnd(t, b, p, path);
      LeafSorted(t, b, leaf);
      isNull, pos, bFind := LeafPosition(unique, pages[leaf].recs, p);
      c := InChain(t, b, chain, leaf);
      SearchNullAt(t, b, leaf, p);
      LeavesBefore(t, b, chain, c);
      if !isNull {
        GlobalLowerBound(t, b, chain, c, p, pos);
        FoundInTree(t, b, chain, c, p, pos);
      }
    }

    // ---------- index tasks ----------

    /** The start of the index tasks: with a root of level two or more its children are dealt out to
        `exptTaskNum` ranges as evenly as possible; otherwise one task serves the tree. */
    method AllotRanges(exptTaskNum: nat)
      requires Valid() && exptTaskNum > 0
      modifies this`ranges, this`splitLevel
      ensures Valid()
      ensures |ranges| == RangeCount(T(), exptTaskNum)
      ensures ranges != [] ==> splitLevel == Level(pages[rootPage]) - 1
      ensures T() == old(T()) && Records() == old(Records())
    {
      hide Inv, ChainOk, QueueOk, PageSpace.PageSpace.Valid, RangesOk, Dealt;
      ghost var t, b := T(), bounds;
      SoundParts(t, b, chain, queue, splitLevel, ranges);
      RootKind(t, b);
      var taskNum := exptTaskNum;
      var root := pages[rootPage];
      if Level(root) < 2 {
        taskNum := 1;
      } else if |root.entries| < taskNum {
        taskNum := |root.entries|;
      }
      if taskNum > 1 {
        ranges := DealRanges(taskNum);
        splitLevel := Level(root) - 1;
      } else {
        ranges := [];
        NoRanges(t, b, splitLevel);
      }
    }

    method DealRanges(taskNum: nat) returns (vctRange: seq<IndexRange>)
      requires Inv(T(), bounds) && IsBranch(T(), rootPage) && pages[rootPage].level >= 2
      requires 1 < taskNum <= |pages[rootPage].entries|
      ensures |vctRange| == taskNum && RangesOk(T(), bounds, pages[rootPage].level - 1, vctRange)
      ensures forall i :: 0 <= i < taskNum ==> var a := |pages[rootPage].entries| / taskNum;
          a <= |vctRange[i].pages| <= a + 1
    {
      hide Inv, RangesOk;
      ghost var t, b := T(), bounds;
      var es := pages[rootPage].entries;
      var num := |es|;
      var a, rest := num / taskNum, num % taskNum;
      var pos := 0;
      ghost var starts: seq<nat> := [0];
      vctRange := [];
      while |vctRange| < taskNum
        invariant |vctRange| <= taskNum && Dealt(t, es, vctRange, starts) && starts[|vctRange|] == pos
        invariant forall i :: 0 <= i < |vctRange| ==> a <= |vctRange[i].pages| <= a + 1
        invariant pos == a * |vctRange| + (if |vctRange| > taskNum - rest then |vctRange| - (taskNum - rest) else 0)
        decreases taskNum - |vctRange|
      {
        var i := |vctRange|;
        var n := a + if rest >= taskNum - i then 1 else 0;
        EvenShare(num, taskNum, i);
        var last := es[pos + n - 1].child;
        RootKid(t, b, pos + n - 1);
        LastSepOf(t, b, last);
        var range := IndexRange(LastSep(Tree(pages, rootPage, unique), last), ChildIds(es)[pos..pos + n]);
        assert RangeDealt(t, es, range, pos, pos + n);
        DealtMore(t, es, vctRange, starts, range, pos + n);
        vctRange := vctRange + [range];
        starts := starts + [pos + n];
        pos := pos + n;
      }
      assert pos == num by { EvenShare(num, taskNum, taskNum); }
      DealtOk(t, b, vctRange, starts);
    }

    // ---------- splits ----------

    /** A new root above the old one.  It holds entry `e` for the old root until the split that asked for it
        puts in the page's own entry. */
    method NewRoot(e: Entry) returns (q: PageId)
      requires Valid() && e.child == rootPage && EntryFit(e) && (unique ==> e.sep.val == 0.0)
      modifies this`pages, this`rootPage, this`bounds, store, store.garbage
      ensures Valid() && Records() == old(Records())
      ensures q !in old(pages) && old(rootPage) in old(pages)
      ensures T() == Grow(old(T()), q, e) && bounds == old(bounds)[q := ALL]
    {
      hide Sound, Stored, Grow, PageSpace.PageSpace.Valid, Level, WithParent;
      RootIn(T(), bounds, chain, queue, splitLevel, ranges);
      ghost var t, b := T(), bounds;
      var lockFree: bool := *;
      var ids := store.ApplyIndexPages(1, lockFree);
      q := ids[0];
      OneId(ids);
      SoundGrow(t, b, chain, queue, splitLevel, ranges, q, e);
      GrowPages(t, q, e);
      var top := pages[rootPage];
      pages := pages[rootPage := WithParent(top, Some(q))][q := Branch(None, Level(top) + 1, [e], e.len, true)];
      rootPage := q;
      bounds := bounds[q := ALL];
      assert T() == Grow(t, q, e);
    }

    /** The slot of a page in its parent, found by a search for the page's last record. */
    method SlotInParent(p: PageId, k: Key) returns (q: PageId, i: nat)
      requires Valid() && p in pages && p in bounds && In(k, bounds[p]) && (unique ==> k.val == 0.0)
      requires pages[p].parent.Some?
      ensures pages[p].parent == Some(q)
      ensures IsBranch(T(), q) && i < |pages[q].entries| && pages[q].entries[i].child == p
    {
      hide Sound, In, IsSlotFor;
      q := pages[p].parent.value;
      ParentOrRoot(T(), bounds, chain, queue, splitLevel, ranges, p);
      i := SlotForRecord(unique, Seps(pages[q].entries), k);
      OwnEntryFound(T(), bounds, chain, queue, splitLevel, ranges, p, q, k, i);
    }

    /** Takes over the page table a split has built. */
    method Install(m': PageTable, queue': set<PageId>, end': PageId, rs': seq<IndexRange>, ghost b': Bounds,
        ghost chain': seq<PageId>)
      requires store.Valid() && store.indexPages == m'.Keys
      requires Sound(Tree(m', rootPage, unique), b', chain', queue', splitLevel, rs')
      requires |chain'| > 0 && beginLeaf == chain'[0] && end' == chain'[|chain'| - 1]
      modifies this`pages, this`endLeaf, this`queue, this`ranges, this`bounds, this`chain
      ensures Valid()
      ensures pages == m' && queue == queue' && ranges == rs' && bounds == b' && chain == chain'
    {
      hide Sound, PageSpace.PageSpace.Valid;
      pages, queue, endLeaf, ranges, bounds, chain := m', queue', end', rs', b', chain';
    }

    /** LeafPage::SplitPage after the cut positions are known.  `keep`: the parent existed before, and gets
        its old entry back when the leaf is not cut. */
    method DivideLeaf(p: PageId, q: PageId, i: nat, keep: bool, live: seq<Rec>, cuts: seq<nat>,
                      clens: seq<int>, tlens: seq<int>) returns (ghost ids: seq<PageId>)
      requires Valid() && p in pages && pages[p].Leaf? && p in queue
      requires IsBranch(T(), q) && i < |pages[q].entries| && pages[q].entries[i].child == p
      requires live == Live(pages[p].recs) && |live| > 0 && GreedyCut(live, cuts, clens, tlens, LEAF_LIMITS)
      requires keep || (p in bounds && bounds[p].hi == PosInf)
      modifies this`pages, this`endLeaf, this`queue, this`ranges, this`bounds, this`chain, store, store.garbage
      ensures Valid() && Records() == old(Records()) && ranges == old(ranges)
      ensures Effect(old(T()), T(), p) && old(queue) + {q} <= queue
      ensures |ids| > 0 && ids[0] == p && LeafPieces(T(), ids, live, cuts) && (|ids| > 1 ==> Elems(ids) <= queue)
      ensures Beside(old(T()), T(), q, ids) && (keep && |cuts| == 1 ==> pages[q] == old(pages)[q])
      ensures Queued(old(T()), T(), queue)
    {
      hide Beside, Queued, Sound, Stored, Effect, PageSpace.PageSpace.Valid, Live, GreedyCut, RecKeys, PieceSeps,
          EntriesOk, Distinct, Elems, Handed, ChainSplice, LeafSplitOf, LeafPieces;
      ghost var t, b, s := T(), bounds, chain;
      SoundParts(t, b, s, queue, splitLevel, ranges);
      LeafCutsOk(live, cuts, clens, tlens);
      var lockFree: bool := *;
      var vctId := store.ApplyIndexPages(|cuts| - 1, lockFree);
      NewIdsFrom(pages, vctId);
      var es, m' := LeafSplitTable(pages, t, b, p, q, i, keep, live, cuts, clens, tlens, vctId);
      ghost var c := InChain(t, b, s, p);
      var queue', end' := queue + {p, q}, endLeaf;
      var next := pages[p].next;
      if |cuts| > 1 {
        queue' := queue' + Elems(vctId);
        if next.Some? {
          queue' := queue' + {next.value};
        } else {
          end' := vctId[|vctId| - 1];
        }
      }
      QueueIn(t, b, s, m', p, q, i, vctId, es, live, cuts, clens, tlens, c);
      LeafBeside(t, b, m', q, i, [p] + vctId, es, live, cuts, clens, tlens);
      LeafQueued(t, b, s, m', p, q, i, vctId, es, live, cuts, clens, tlens, c, queue');
      SoundLeafSplit(t, b, s, queue, splitLevel, ranges, m', q, i, [p] + vctId, es, live, cuts, clens, tlens,
                     pages[q].entries[i].sep, c, queue');
      ChainEnds(t, b, s, p, c, vctId);
      ids := [p] + vctId;
      Install(m', queue', end', ranges, Handed(b, [p] + vctId, es), ChainSplice(s, c, [p] + vctId));
    }

    /** The index ranges after the split of branch page p: at the split level the new pages join the range
        that a search for the page's last record finds. */
    method NewRanges(p: PageId, k: Key, vctId: seq<PageId>) returns (rs': seq<IndexRange>)
      requires Sound(T(), bounds, chain, queue, splitLevel, ranges)
      requires IsBranch(T(), p) && p in bounds && In(k, bounds[p]) && (unique ==> k.val == 0.0)
      ensures RangesAfter(T(), bounds, splitLevel, ranges, rs', [p] + vctId)
    {
      hide Sound, In, IsSlotFor, PageSpace.PageSpace.Valid;
      rs' := ranges;
      if ranges != [] && pages[p].level == splitLevel {
        SearchableBorders(T(), bounds, chain, queue, splitLevel, ranges);
        var r := SlotForRecord(unique, Borders(ranges), k);
        InOwnRange(T(), bounds, chain, queue, splitLevel, ranges, p, k, r);
        var vctRangePage := ranges[r].pages;
        var rpos := 0;
        while vctRangePage[rpos] != p
          invariant rpos < |vctRangePage|
          invariant p in vctRangePage[rpos..]
          decreases |vctRangePage| - rpos
        {
          rpos := rpos + 1;
        }
        rs' := ranges[r := ranges[r].(pages := vctRangePage[..rpos + 1] + vctId + vctRangePage[rpos + 1..])];
        assert vctRangePage[..rpos + 1] + vctId + vctRangePage[rpos + 1..] ==
            PagesSplice(vctRangePage, rpos, [p] + vctId);
      }
    }

    /** BranchPage::SplitPage after the cut positions are known. */
    method DivideBranch(p: PageId, q: PageId, i: nat, cuts: seq<nat>, lens: seq<int>) returns (ghost ids: seq<PageId>)
      requires Valid() && p in pages && pages[p].Branch? && p in queue && pages[p].comm >= MAX_BRANCH
      requires IsBranch(T(), q) && i < |pages[q].entries| && pages[q].entries[i].child == p
      requires Greedy(ELens(pages[p].entries), ELens(pages[p].entries), cuts, BRANCH_LIMITS)
      requires ChunkLengths(ELens(pages[p].entries), cuts, lens)
      modifies this`pages, this`endLeaf, this`queue, this`ranges, this`bounds, this`chain, store, store.garbage
      ensures Valid() && Records() == old(Records())
      ensures Effect(old(T()), T(), p) && old(queue) + {q} <= queue
      ensures |ids| > 0 && ids[0] == p && Elems(ids) <= queue
      ensures BranchPieces(T(), ids, old(pages[p].level), old(pages[p].entries), cuts)
      ensures Beside(old(T()), T(), q, ids) && Queued(old(T()), T(), queue)
    {
      hide Beside, Queued, Sound, Stored, Effect, PageSpace.PageSpace.Valid, Greedy, ChunkLengths, ELens, Seps,
          PieceSeps, EntriesOk, Distinct, Elems, Handed, RangesAfter, BranchSplitOf, In, CutsOk, Kids, BranchPieces;
      ghost var t, b := T(), bounds;
      SoundParts(t, b, chain, queue, splitLevel, ranges);
      var all := pages[p].entries;
      LastRecord(t, b, p);
      BranchCutsOk(all, cuts, lens);
      assert Start(cuts, 0) < cuts[0] <= |all| by { CutOrderFirst(cuts, |all|); }
      var lockFree: bool := *;
      var vctId := store.ApplyIndexPages(|cuts| - 1, lockFree);
      NewIdsFrom(pages, vctId);
      var es, m' := BranchSplitTable(unique, pages, t, b, p, q, i, cuts, lens, vctId);
      var rs' := NewRanges(p, all[|all| - 1].sep, vctId);
      var queue' := queue + {p, q} + Elems(vctId) + Kids(all[cuts[0]..]);
      BranchQueueIn(t, b, m', p, q, i, vctId, es, cuts, lens, cuts[0]);
      BranchQueued(t, b, m', p, q, i, vctId, es, cuts, lens, queue');
      SoundBranchSplit(t, b, chain, queue, splitLevel, ranges, m', q, i, [p] + vctId, es, cuts, lens,
                       pages[q].entries[i].sep, queue', rs');
      ids := [p] + vctId;
      Install(m', queue', endLeaf, rs', Handed(b, [p] + vctId, es), chain);
    }

    /** The parent that takes the entries of a split page: the one it has, or a new root. */
    method ParentFor(p: PageId, k: Key, e: Entry) returns (q: PageId, i: nat)
      requires Valid() && p in pages && p in bounds && In(k, bounds[p]) && (unique ==> k.val == 0.0)
      requires e.child == p && EntryFit(e) && (unique ==> e.sep.val == 0.0)
      modifies this`pages, this`rootPage, this`bounds, store, store.garbage
      ensures Valid() && Records() == old(Records())
      ensures Raised(old(T()), T(), p, q, e)
      ensures IsBranch(T(), q) && i < |pages[q].entries| && pages[q].entries[i].child == p
      ensures p in bounds && (old(pages[p].parent).None? ==> bounds[p].hi == PosInf)
      ensures old(pages[p].parent).Some? ==> rootPage == old(rootPage)
    {
      hide Sound, Stored, Grow, PageSpace.PageSpace.Valid, In;
      ghost var t := T();
      ParentOrRoot(t, bounds, chain, queue, splitLevel, ranges, p);
      if pages[p].parent.None? {
        q := NewRoot(e);
        i := 0;
        NewRootHolds(t, q, e);
      } else {
        q, i := SlotInParent(p, k);
      }
    }

    /** BranchPage::SplitPage: the page and its new siblings hold the greedy chunks of its entries.  The parent it had
        is split too if it passes the threshold, so afterwards no parent is past it; a new root is not looked at. */
    method SplitBranchPage(p: PageId) returns (ghost ids: seq<PageId>, ghost cuts: seq<nat>)
      requires Valid() && p in pages && pages[p].Branch? && p in queue && pages[p].comm >= MAX_BRANCH
      modifies this, store, store.garbage
      ensures Valid() && Records() == old(Records())
      ensures Effect(old(T()), T(), p) && old(queue) <= queue
      ensures |ids| > 0 && ids[0] == p && Elems(ids) <= queue
      ensures BranchPieces(T(), ids, old(pages[p].level), old(pages[p].entries), cuts)
      ensures var s := ELens(old(pages[p].entries)); Greedy(s, s, cuts, BRANCH_LIMITS)
      ensures ParentShort(old(T()), T(), p, true) && (old(LowBut(T(), p)) ==> Low(T()))
      ensures Queued(old(T()), T(), queue)
      decreases LevelsAbove(T(), p)
    {
      hide Beside, Queued, Low, LowBut, ParentShort, Sound, Stored, Effect, PageSpace.PageSpace.Valid, Greedy,
          ChunkLengths, ELens, In, EntryLens, LevelsAbove, Raised, Core, BranchPieces, Elems;
      ghost var t, b := T(), bounds;
      SoundParts(t, b, chain, queue, splitLevel, ranges);
      LastRecord(t, b, p);
      var all := pages[p].entries;
      var last := all[|all| - 1];
      EntriesFit(all);
      var vctPos, vctLen := BranchCuts(ELens(all), BRANCH_LIMITS);
      cuts := vctPos;
      var first := pages[p].parent.None?;
      ghost var e := Entry(last.sep, p, last.len, last.klen);
      var q, i := ParentFor(p, last.sep, Entry(last.sep, p, last.len, last.klen));
      ghost var u := T();
      RaisedPage(t, u, p, q, e);
      ids := DivideBranch(p, q, i, vctPos, vctLen);
      ghost var v, was := T(), queue;
      RaisedEffect(t, b, u, p, q, e, v);
      SoundParts(v, bounds, chain, queue, splitLevel, ranges);
      BranchDivided(t, u, v, p, q, e, ids, queue);
      if !first {
        OneLevelUp(t, b, v, bounds, p, q);
        if NeedForceSplit(pages[q]) {
          ghost var qs, qcuts;
          qs, qcuts := SplitBranchPage(q);
          EffectThen(t, v, T(), p, q);
          BranchPiecesKept(v, T(), q, ids, t.pages[p].level, all, cuts);
          QueuedThen(t, v, T(), was, queue);
          SplitIsShort(v, T(), q);
        }
      }
      ParentNow(t, b, u, T(), p, q, e);
    }

    /** LeafPage::SplitPage: the page and its new siblings hold the greedy chunks of the records that stay.  It goes
        wrong without a record that stays, and when its last record has no bytes to search the parent for. */
    method SplitLeafPage(p: PageId) returns (stuck: bool, ghost ids: seq<PageId>, ghost cuts: seq<nat>)
      requires Valid() && p in pages && pages[p].Leaf? && p in queue
      modifies this, store, store.garbage
      ensures Valid() && Records() == old(Records()) && old(queue) <= queue
      ensures stuck <==> Stuck(old(pages[p]))
      ensures stuck ==> T() == old(T())
      ensures !stuck ==> SplitApart(old(T()), T(), p, ids, cuts) && (|ids| > 1 ==> Elems(ids) <= queue)
      ensures !stuck ==> ParentShort(old(T()), T(), p, |cuts| > 1)
      ensures (old(Low(T())) ==> Low(T())) && Queued(old(T()), T(), queue)
    {
      hide Beside, Queued, Low, LowBut, ParentShort, SplitApart, Cut, Sound, Stored, Effect, PageSpace.PageSpace.Valid,
          GreedyCut, In, AllFit, Raised, Core, Live, Elems, LeafPieces, Greedy, CLens, TLens, ChunkLengths;
      ghost var t, b := T(), bounds;
      SoundParts(t, b, chain, queue, splitLevel, ranges);
      var recs := pages[p].recs;
      stuck, ids, cuts := false, [], [];
      QueuedSame(t, queue);
      if pages[p].parent.Some? && |recs| > 0 && NoBytes(recs[|recs| - 1]) {
        return true, [], [];
      }
      RecsFit(t, b, p);
      var live, vctPos, vctCLen, vctTLen := LeafCuts.LeafCuts(recs, LEAF_LIMITS);
      if live == [] {
        return true, [], [];
      }
      LeafFacts(t, b, p);
      cuts := vctPos;
      CutLengths(live, vctPos, vctCLen, vctTLen, LEAF_LIMITS);
      var last := live[|live| - 1];
      var first := pages[p].parent.None?;
      ghost var e := Entry(last.key, p, last.elen, last.klen);
      var q, i := ParentFor(p, recs[|recs| - 1].key, Entry(last.key, p, last.elen, last.klen));
      ghost var u := T();
      RaisedPage(t, u, p, q, e);
      ids := DivideLeaf(p, q, i, !first, live, vctPos, vctCLen, vctTLen);
      ghost var v, was := T(), queue;
      SoundParts(v, bounds, chain, queue, splitLevel, ranges);
      LeafDivided(t, b, u, v, bounds, p, q, e, ids, cuts, queue);
      if !first && |vctPos| > 1 {
        OneLevelUp(t, b, v, bounds, p, q);
        if NeedForceSplit(pages[q]) {
          ghost var qs, qcuts;
          qs, qcuts := SplitBranchPage(q);
          SoundParts(T(), bounds, chain, queue, splitLevel, ranges);
          ApartThen(t, v, T(), bounds, p, q, ids, cuts);
          QueuedThen(t, v, T(), was, queue);
          SplitIsShort(v, T(), q);
        }
      }
      ParentNow(t, b, u, T(), p, q, e);
    }

    /** LeafPage::UpdateAction and RecordAction::Exec: put a record into the leaf the search finds.  A record with the
        same key is released if it is due.  If it then carries the delete flag it is erased, whether its DELETE has
        ended or not; only then comes the test for a duplicate or a conflict.  `conflict`: the record there is locked
        by another transaction.  An UPDATE that meets a conflict still reports IN_PAGE: its error is overwritten
        (LeafPage.cpp:286-301).  A DELETE has to find a record that is not erased; otherwise the assertion at line 266
        fails, and without assertions the DELETE goes over the record behind (`wrong`, unless that is locked by
        another transaction) or past the end of the vector.  The record put in place, `x`, takes over the committed
        length of the one it covers; over an erased one it starts anew. */
    method UpdateAction(act: Action, lr: Rec, conflict: bool)
      returns (res: RecordResult, ghost x: Rec, ghost p: PageId, ghost pos: nat, ghost bFind: bool)
      requires Valid() && RecOk(lr, unique) && !lr.gone && !lr.due && lr.clen == 0 && lr.mark == (act == DELETE)
      modifies this, store, store.garbage
      ensures Valid() && old(queue) <= queue
      ensures p in old(pages) && old(pages[p]).Leaf? && Targets(ByRecord(lr.key), old(bounds)[p])
      ensures var has := Holds(old(Records()), lr.key); var hits := SearchNull(old(T()), old(bounds), ByRecord(lr.key));
        && (res == NULL_READ <==> hits)
        && (res == DUPLICATE <==> !hits && act == INSERT && has)
        && (res == CONFLICT <==> !hits && act == DELETE && has && conflict)
        && (res.ASSERTED? <==> !hits && act == DELETE && !has)
        && (res.ASSERTED? ==> (res.wrong <==> exists y :: y in old(pages[p]).recs && Lt(lr.key, y.key)))
      ensures res == NULL_READ ==> T() == old(T())
      ensures res != NULL_READ ==>
                && AtPlace(old(pages[p]).recs, lr.key, pos, bFind)
                && (Holds(old(Records()), lr.key) <==> bFind && !old(pages[p]).recs[pos].mark)
                && var y := UpdatedPage(old(pages[p]), pos, bFind, act, lr, conflict);
                  && (Refused(res) || (res.IN_PAGE? && !NeedForceSplit(y)) ==> T() == WithLeaf(old(T()), p, y))
                  && (res.STUCK? <==> NeedForceSplit(y) && Stuck(y) && !Refused(res))
                  && (res.IN_PAGE? && NeedForceSplit(y) ==> SplitUp(WithLeaf(old(T()), p, y), T(), p))
      ensures (old(Low(T())) ==> Low(T())) && Queued(old(T()), T(), queue) && (res.IN_PAGE? ==> p in queue)
      ensures res != NULL_READ ==>
                x == lr.(clen := x.clen, comm := x.clen) && CoversLength(old(Records()), lr.key, x.clen)
      ensures if res.IN_PAGE? || res.STUCK? then
                if Holds(old(Records()), lr.key) && conflict then Records() == old(Records())
                else forall y :: y in Records() <==> (y in old(Records()) && y.key != lr.key) || y == x
              else Records() == old(Records())
      ensures forall lean :: old(Weighed(T(), lean)) && (lean ==> !Marked(old(Records()), lr.key)) ==>
                Weighed(T(), lean)
      ensures old(Whole(T())) ==> Whole(T()) && res != NULL_READ && !res.STUCK?
    {
      hide Sound, Stored, PageSpace.PageSpace.Valid, Targets, IsLowerBound, Contents, Leaves, Inv, ChainOk, In, RecOk,
          Holds, Place, SearchNull, HitsNull, Matches, Stuck, Marked, CoversLength, Weighed, Whole, WeighedPage,
          UpdatedPage, NeedForceSplit, AtPlace, Covering, Lt, Queued, Low, SplitUp, SameBranches;
      ghost var t, b := T(), bounds;
      QueuedSame(t, queue);
      SoundParts(t, b, chain, queue, splitLevel, ranges);
      KeyOnlyOk(lr, unique);
      if Whole(t) { WholeNoNull(t, b, ByRecord(lr.key)); }
      ghost var c;
      var isNull, leaf, at, found;
      isNull, leaf, at, found, c := Find(ByRecord(lr.key));
      p, pos, bFind, x := leaf, at, found, lr;
      if isNull {
        res := NULL_READ;
        return;
      }
      PlaceFound(t, b, chain, c, at, found, lr);
      res, x := UpdateAndSplit(leaf, at, found, act, lr, conflict, c);
    }

    /** The update after the search, and the split that follows at once when the leaf has passed the threshold
        (src/table/IndexAction.cpp:94-104). */
    method UpdateAndSplit(p: PageId, pos: nat, found: bool, act: Action, lr: Rec, conflict: bool, ghost c: nat)
      returns (res: RecordResult, ghost x: Rec)
      requires Valid() && p in pages && pages[p].Leaf? && c < |chain| && chain[c] == p && p in bounds
      requires RecOk(lr, unique) && !lr.gone && !lr.due && lr.mark == (act == DELETE) && In(lr.key, bounds[p])
      requires Place(pages[p].recs, pos, found, lr)
      requires if found then pos < |pages[p].recs| else pos <= |pages[p].recs|
      modifies this, store, store.garbage
      ensures Valid() && old(queue) <= queue && (res.IN_PAGE? ==> p in queue)
      ensures var has := found && !old(pages[p].recs[pos]).mark;
        && (res == DUPLICATE <==> act == INSERT && has)
        && (res == CONFLICT <==> act == DELETE && has && conflict)
        && (res.ASSERTED? <==> act == DELETE && !has) && res != NULL_READ
        && (res.ASSERTED? ==> (res.wrong <==> exists y :: y in old(pages[p]).recs && Lt(lr.key, y.key)))
        && if Refused(res) || (has && conflict) then Records() == old(Records())
           else forall y :: y in Records() <==> (y in old(Records()) && y.key != lr.key) || y == x
      ensures var y := UpdatedPage(old(pages[p]), pos, found, act, lr, conflict);
        && (Refused(res) || (res.IN_PAGE? && !NeedForceSplit(y)) ==> T() == WithLeaf(old(T()), p, y))
        && (res.STUCK? <==> NeedForceSplit(y) && Stuck(y) && !Refused(res))
        && (res.IN_PAGE? && NeedForceSplit(y) ==> SplitUp(WithLeaf(old(T()), p, y), T(), p))
      ensures (old(Low(T())) ==> Low(T())) && Queued(old(T()), T(), queue)
      ensures x == Covering(lr, old(pages[p]).recs, pos, found)
      ensures forall lean ::
                old(Weighed(T(), lean)) && !(lean && found && ErasesUnfinished(old(pages[p].recs[pos]))) ==>
                  Weighed(T(), lean)
      ensures old(Whole(T())) ==> Whole(T()) && !res.STUCK?
    {
      hide Sound, Stored, PageSpace.PageSpace.Valid, RecOk, Place, In, Weighed, Whole, Covering, Lt, Queued, Low,
          SplitUp, SameBranches, Stuck, NeedForceSplit, UpdatedPage, ErasesUnfinished;
      ghost var t := T();
      res, x := UpdateLeaf(p, pos, found, act, lr, conflict, c);
      ghost var u, was := T(), queue;
      OneLeafChanged(t, p, pages[p]);
      if Low(t) { SameBranchesLow(t, u); }
      if res.IN_PAGE? {
        var stuck := ForceSplit(p);
        QueuedThen(t, u, T(), was, queue);
        res := if stuck then STUCK else IN_PAGE;
      }
    }

    /** LeafPage::UpdateAction after the search. */
    method UpdateLeaf(p: PageId, pos: nat, found: bool, act: Action, lr: Rec, conflict: bool, ghost c: nat)
      returns (res: RecordResult, ghost x: Rec)
      requires Valid() && p in pages && pages[p].Leaf? && c < |chain| && chain[c] == p && p in bounds
      requires RecOk(lr, unique) && !lr.gone && !lr.due && lr.mark == (act == DELETE) && In(lr.key, bounds[p])
      requires Place(pages[p].recs, pos, found, lr)
      requires if found then pos < |pages[p].recs| else pos <= |pages[p].recs|
      modifies this`pages, this`endLeaf, this`queue, this`ranges, this`bounds, this`chain
      ensures Valid() && old(queue) <= queue && (res.IN_PAGE? ==> p in queue)
      ensures pages == old(pages)[p := UpdatedPage(old(pages[p]), pos, found, act, lr, conflict)] && pages[p].Leaf?
      ensures var has := found && !old(pages[p].recs[pos]).mark;
        && (res == DUPLICATE <==> act == INSERT && has)
        && (res == CONFLICT <==> act == DELETE && has && conflict)
        && (res.ASSERTED? <==> act == DELETE && !has) && res != NULL_READ && res != STUCK
        && (res.ASSERTED? ==> (res.wrong <==> exists y :: y in old(pages[p]).recs && Lt(lr.key, y.key)))
        && if Refused(res) || (has && conflict) then Records() == old(Records())
           else forall y :: y in Records() <==> (y in old(Records()) && y.key != lr.key) || y == x
      ensures x == Covering(lr, old(pages[p]).recs, pos, found)
      ensures forall lean ::
                old(Weighed(T(), lean)) && !(lean && found && ErasesUnfinished(old(pages[p].recs[pos]))) ==>
                  Weighed(T(), lean)
      ensures old(Whole(T())) ==> Whole(T())
      ensures Queued(old(T()), T(), queue)
    {
      hide Sound, Stored, PageSpace.PageSpace.Valid, Inv, ChainOk, RecOk, Put, Place, In, Weighed, Whole, WeighedPage,
          Covering, ReleasedPage, PutPage, Lt, Queued;
      ghost var t, b := T(), bounds;
      QueuedSame(t, queue);
      SoundParts(t, b, chain, queue, splitLevel, ranges);
      RecsFit(t, b, p);
      x := Covering(lr, pages[p].recs, pos, found);
      if found {
        ReleaseRecord(p, pos, c);
        PlaceReleased(t.pages[p], pos, lr);
      }
      ghost var u, was := T(), queue;
      var has := found && !pages[p].recs[pos].mark;
      if act == DELETE && !has {
        var behind := if found then pos + 1 else pos;
        RecordBehind(t, b, p, pos, found, lr);
        res := ASSERTED(behind < |pages[p].recs|);
        return;
      }
      res := IN_PAGE;
      if has && (act == INSERT || conflict) {
        if act != UPDATE {
          res := if act == INSERT then DUPLICATE else CONFLICT;
          return;
        }
        AddWriteQueue(p);
        QueuedSame(u, queue);
      } else {
        PutRecord(p, pos, found, lr, c);
      }
      QueuedThen(t, u, T(), was, queue);
    }

    /** The split that follows an update at once when the leaf has passed the threshold. */
    method ForceSplit(p: PageId) returns (stuck: bool)
      requires Valid() && p in pages && pages[p].Leaf? && p in queue
      modifies this, store, store.garbage
      ensures Valid() && Records() == old(Records()) && old(queue) <= queue
      ensures stuck <==> NeedForceSplit(old(pages[p])) && Stuck(old(pages[p]))
      ensures stuck || !NeedForceSplit(old(pages[p])) ==> T() == old(T())
      ensures !stuck && NeedForceSplit(old(pages[p])) ==> SplitUp(old(T()), T(), p)
      ensures (old(Low(T())) ==> Low(T())) && Queued(old(T()), T(), queue)
      ensures LengthsKept(old(T()), T())
      ensures old(Whole(T())) ==> Whole(T()) && !stuck
    {
      hide SplitApart, ParentShort, Low, Queued, Sound, Stored, PageSpace.PageSpace.Valid, Live, Inv, ChainOk, Stuck,
          Effect, LeafPieces, Greedy, Weighed, Whole, WholePage, CLens, TLens;
      stuck := false;
      QueuedSame(T(), queue);
      if NeedForceSplit(pages[p]) {
        ghost var u, bu := T(), bounds;
        ghost var ids, cuts;
        SoundParts(u, bu, chain, queue, splitLevel, ranges);
        if Whole(u) { WholeAt(u, p); WholeNotStuck(u.pages[p]); }
        stuck, ids, cuts := SplitLeafPage(p);
        if !stuck {
          ApartEffect(u, T(), p, ids, cuts);
          SoundParts(T(), bounds, chain, queue, splitLevel, ranges);
          forall lean | Weighed(u, lean) ensures Weighed(T(), lean) { WeighedStep(u, bu, T(), bounds, p, lean); }
          if Whole(u) { WholeStep(u, bu, T(), bounds, p); }
        }
      }
    }

    /** LeafPage::ReleaseLock on a record that a search or a scan has come to, if it is due.  The page has stayed in the
        write queue since the record was changed. */
    method ReleaseRecord(p: PageId, pos: nat, ghost c: nat)
      requires Valid() && p in pages && pages[p].Leaf? && pos < |pages[p].recs| && c < |chain| && chain[c] == p
      modifies this`pages, this`endLeaf, this`queue, this`ranges, this`bounds, this`chain
      ensures Valid() && old(queue) <= queue && bounds == old(bounds) && chain == old(chain)
      ensures pages == old(pages)[p := ReleasedPage(old(pages[p]), pos)] && pages[p].Leaf?
      ensures queue == if old(pages[p].recs[pos]).due then old(queue) + {p} else old(queue)
      ensures Records() == old(Records()) && Queued(old(T()), T(), queue)
      ensures LengthsKept(old(T()), T())
      ensures old(Whole(T())) ==> Whole(T())
    {
      hide Sound, Stored, PageSpace.PageSpace.Valid, Put, Weighed, Whole;
      ReleasedSound(T(), bounds, chain, queue, splitLevel, ranges, c, pos);
      if pages[p].recs[pos].due {
        Install(pages[p := ReleasedPage(pages[p], pos)], queue + {p}, endLeaf, ranges, bounds, chain);
      }
    }

    /** Statement::Commit and Rollback end the newest statements on a record they point at; its release turns it into x
        when a search or a scan comes to it. */
    method EndRecord(x: Rec) returns (ghost p: PageId, ghost pos: nat)
      requires Valid() && RecOk(x, unique) && !x.due && exists y :: y in Records() && y.key == x.key
      modifies this`pages, this`endLeaf, this`queue, this`ranges, this`bounds, this`chain
      ensures Valid() && old(queue) <= queue && bounds == old(bounds)
      ensures p in old(pages) && old(pages[p]).Leaf? && Place(old(pages[p]).recs, pos, true, x)
      ensures p in bounds && Targets(ByRecord(x.key), bounds[p])
      ensures pages == old(pages)[p := EndedPage(old(pages[p]), pos, x)] && queue == old(queue) + {p}
      ensures forall y :: y in Records() <==> (y in old(Records()) && y.key != x.key) || (y == x && !x.gone)
      ensures LengthsKept(old(T()), T())
      ensures old(Whole(T())) && !x.gone ==> Whole(T())
    {
      hide Sound, Stored, PageSpace.PageSpace.Valid, Put, Weighed, Whole, RecOk, Place, In, Targets, Live;
      ghost var t, b := T(), bounds;
      StoredWhere(t, b, chain, queue, splitLevel, ranges, x.key);
      var q, i :| q in pages && pages[q].Leaf? && 0 <= i < |pages[q].recs| && pages[q].recs[i].key == x.key;
      p, pos := q, i;
      ghost var c := KeyPlace(t, b, chain, queue, splitLevel, ranges, q, i, x);
      EndedSound(t, b, chain, queue, splitLevel, ranges, c, i, x);
      Install(pages[q := EndedPage(pages[q], i, x)], queue + {q}, endLeaf, ranges, b, chain);
    }

    /** SacnIndex for one key of the primary index, with HandleLeafRecord of a DELETE or an UPDATE
        (src/statement/DeleteStatement.cpp:180-280, src/statement/UpdateStatement.cpp:178-330): the record found is
        released if it is due, and replaced in its page unless it is deleted or locked by another transaction.  A
        DELETE charges the page, an UPDATE does not. */
    method HandleLeafRecord(act: Action, lr: Rec, conflict: bool)
      returns (res: HandleResult, ghost x: Rec, ghost p: PageId, ghost pos: nat, ghost bFind: bool)
      requires Valid() && unique && act != INSERT
      requires RecOk(lr, unique) && !lr.gone && !lr.due && lr.clen == 0 && lr.mark == (act == DELETE)
      modifies this`pages, this`endLeaf, this`queue, this`ranges, this`bounds, this`chain
      ensures Valid() && old(queue) <= queue && bounds == old(bounds)
      ensures var has := Holds(old(Records()), lr.key);
        var hits := SearchNull(old(T()), old(bounds), ByKey(lr.key.key));
        && (res == NULL_KEY <==> hits)
        && (res == NOT_FOUND <==> !hits && !has)
        && (res == REFUSED <==> !hits && has && conflict)
        && if res == HANDLED then
             forall y :: y in Records() <==> (y in old(Records()) && y.key != lr.key) || y == x
           else Records() == old(Records())
      ensures res == HANDLED ==>
                CoversLength(old(Records()), lr.key, x.clen) && x == lr.(clen := x.clen, comm := x.clen)
      ensures p in old(pages) && p in bounds && old(pages[p]).Leaf? && Targets(ByKey(lr.key.key), bounds[p])
      ensures res == NULL_KEY ==> T() == old(T())
      ensures res != NULL_KEY ==>
                && AtPlace(old(pages[p]).recs, lr.key, pos, bFind)
                && (Holds(old(Records()), lr.key) <==> bFind && !old(pages[p]).recs[pos].mark)
      ensures res == NOT_FOUND || res == REFUSED ==>
                T() == if bFind then WithLeaf(old(T()), p, ReleasedPage(old(pages[p]), pos)) else old(T())
      ensures res == HANDLED ==> bFind && T() == WithLeaf(old(T()), p, HandledPage(old(pages[p]), pos, act, lr))
      ensures Queued(old(T()), T(), queue) && (res == HANDLED ==> p in queue)
      ensures forall lean ::
                old(Weighed(T(), lean)) && (res == HANDLED && act == UPDATE ==> SameLength(old(Records()), lr)) ==>
                  Weighed(T(), lean)
      ensures old(Whole(T())) ==> Whole(T()) && res != NULL_KEY
    {
      hide Sound, Stored, PageSpace.PageSpace.Valid, Targets, IsLowerBound, Contents, Leaves, Inv, ChainOk, In, RecOk,
          Holds, Place, SearchNull, HitsNull, CoversLength, Weighed, Whole, Covering, HandledPage, SameLength, AtPlace,
          ReleasedPage, Marked, Queued;
      ghost var t, b := T(), bounds;
      QueuedSame(t, queue);
      SoundParts(t, b, chain, queue, splitLevel, ranges);
      if Whole(t) { WholeNoNull(t, b, ByKey(lr.key.key)); }
      ghost var c;
      var isNull, leaf, at, found;
      isNull, leaf, at, found, c := Find(ByKey(lr.key.key));
      p, pos, bFind, x := leaf, at, found, lr;
      if isNull {
        res := NULL_KEY;
        return;
      }
      KeyOnlyOk(lr, unique);
      KeyPlaceFound(t, b, chain, c, at, found, lr);
      PlaceFound(t, b, chain, c, at, found, lr);
      if !found {
        res := NOT_FOUND;
        return;
      }
      res, x := HandleLeaf(leaf, at, act, lr, conflict, c);
    }

    /** HandleLeafRecord on the record found. */
    method HandleLeaf(p: PageId, pos: nat, act: Action, lr: Rec, conflict: bool, ghost c: nat)
      returns (res: HandleResult, ghost x: Rec)
      requires Valid() && p in pages && pages[p].Leaf? && c < |chain| && chain[c] == p && p in bounds
      requires RecOk(lr, unique) && !lr.gone && !lr.due && lr.mark == (act == DELETE) && act != INSERT
      requires In(lr.key, bounds[p]) && Place(pages[p].recs, pos, true, lr) && pos < |pages[p].recs|
      modifies this`pages, this`endLeaf, this`queue, this`ranges, this`bounds, this`chain
      ensures Valid() && old(queue) <= queue && bounds == old(bounds)
      ensures var has := !old(pages[p].recs[pos]).mark;
        && res == (if !has then NOT_FOUND else if conflict then REFUSED else HANDLED)
        && if res == HANDLED then
             forall y :: y in Records() <==> (y in old(Records()) && y.key != lr.key) || y == x
           else Records() == old(Records())
      ensures x == Covering(lr, old(pages[p]).recs, pos, true)
      ensures T() == WithLeaf(old(T()), p, if res == HANDLED then HandledPage(old(pages[p]), pos, act, lr)
                                           else ReleasedPage(old(pages[p]), pos))
      ensures Queued(old(T()), T(), queue) && (res == HANDLED ==> p in queue)
      ensures forall lean ::
                old(Weighed(T(), lean)) && (res == HANDLED && act == UPDATE ==> SameLength(old(Records()), lr)) ==>
                  Weighed(T(), lean)
      ensures old(Whole(T())) ==> Whole(T())
    {
      hide Sound, Stored, PageSpace.PageSpace.Valid, Inv, ChainOk, RecOk, Put, Place, In, Weighed, Whole, WeighedPage,
          Covering, ReleasedPage, PutPage, ReplacedPage, SameLength, Queued;
      ghost var t, b := T(), bounds;
      SoundParts(t, b, chain, queue, splitLevel, ranges);
      RecsFit(t, b, p);
      x := Covering(lr, pages[p].recs, pos, true);
      ReleaseRecord(p, pos, c);
      PlaceReleased(t.pages[p], pos, lr);
      ghost var u, was := T(), queue;
      QueuedSame(u, queue);
      if pages[p].recs[pos].mark {
        res := NOT_FOUND;
      } else if conflict {
        res := REFUSED;
      } else {
        res := HANDLED;
        if act == DELETE {
          PutRecord(p, pos, true, lr, c);
        } else {
          HeldLength(t, b, chain, c, pos, lr);
          ReplaceRecord(p, pos, lr, c);
        }
      }
      QueuedThen(t, u, T(), was, queue);
    }

    /** The record vector gets the new version; no length is charged. */
    method ReplaceRecord(p: PageId, pos: nat, lr: Rec, ghost c: nat)
      requires Valid() && p in pages && pages[p].Leaf? && c < |chain| && chain[c] == p && p in bounds
      requires RecOk(lr, unique) && !lr.gone && !lr.due && In(lr.key, bounds[p]) && Place(pages[p].recs, pos, true, lr)
      requires pos < |pages[p].recs| && !pages[p].recs[pos].due && !pages[p].recs[pos].mark
      modifies this`pages, this`endLeaf, this`queue, this`ranges, this`bounds, this`chain
      ensures Valid() && old(queue) <= queue && bounds == old(bounds) && chain == old(chain)
      ensures T() == WithLeaf(old(T()), p, ReplacedPage(old(pages[p]), pos, lr))
      ensures queue == old(queue) + {p} && Queued(old(T()), T(), queue)
      ensures forall y :: y in Records() <==>
                            (y in old(Records()) && y.key != lr.key) || y == Covering(lr, old(pages[p].recs), pos, true)
      ensures lr.temp == old(pages[p].recs[pos]).temp ==> LengthsKept(old(T()), T())
      ensures old(Whole(T())) ==> Whole(T())
    {
      hide Sound, Stored, PageSpace.PageSpace.Valid, RecOk, Put, Place, Weighed, Whole, In, Covering, ReplacedPage,
          LengthsKept;
      ReplacedSound(T(), bounds, chain, queue, splitLevel, ranges, c, pos, lr);
      Install(pages[p := ReplacedPage(pages[p], pos, lr)], queue + {p}, endLeaf, ranges, bounds, chain);
    }

    /** Statement::SacnIndex over the keys from `first` to `last`,
        or for one key of a unique index (`point`): it releases
        what is due, and reads through a null pointer in its search or when it comes to a record without bytes.  What
        a statement reads of the records is in RecordVersions. */
    method ScanIndex(first: real, last: real, point: bool)
      returns (isNull: bool, ghost p: PageId, ghost at: nat, ghost bFind: bool)
      requires Valid() && (point ==> unique && first == last)
      modifies this`pages, this`endLeaf, this`queue, this`ranges, this`bounds, this`chain
      ensures Valid() && Records() == old(Records()) && bounds == old(bounds) && chain == old(chain)
      ensures Leaves(T(), chain) && old(Leaves(T(), chain))
      ensures isNull <==>
                || SearchNull(old(T()), old(bounds), ByKey(first))
                || (!point && RunsIntoNull(old(Contents(T(), chain)), first, last))
      ensures !point && !isNull ==> Contents(T(), chain) == ScannedRecs(old(Contents(T(), chain)), first, last)
      ensures p in old(pages) && p in bounds && old(pages[p]).Leaf? && Targets(ByKey(first), bounds[p])
      ensures point && !isNull ==>
                && (bFind ==> at < |old(pages[p]).recs| && old(pages[p]).recs[at].key.key == first)
                && (!bFind ==> forall y :: y in old(pages[p]).recs ==> y.key.key != first)
                && pages == if bFind then old(pages)[p := ReleasedPage(old(pages[p]), at)] else old(pages)
      ensures LengthsKept(old(T()), T())
      ensures old(Whole(T())) ==> Whole(T())
      ensures SameBranches(old(T()), T()) && Queued(old(T()), T(), queue) && old(queue) <= queue
      ensures !isNull ==> p in queue
    {
      hide Queued, SameBranches, Sound, Stored, PageSpace.PageSpace.Valid, Targets, IsLowerBound, Contents, Leaves, Inv,
          ChainOk, SearchNull, HitsNull, Matches, Weighed, Whole, RunsIntoNull, Passed, ScannedTo, ScannedRecs,
          ReleasedPage, LengthsKept;
      ghost var t, b := T(), bounds;
      SoundParts(t, b, chain, queue, splitLevel, ranges);
      LeavesBefore(t, b, chain, 0);
      var leaf, pos, found;
      ghost var c;
      isNull, leaf, pos, found, c := Find(ByKey(first));
      p, at, bFind := leaf, pos, found;
      LengthsSame(t);
      QueuedSame(t, queue);
      OneLeafChanged(t, leaf, t.pages[leaf]);
      if isNull {
        return;
      }
      if point {
        LeafSorted(t, b, leaf);
        KeyThere(pages[leaf].recs, first, pos, found);
        if found {
          ReleaseRecord(leaf, pos, c);
          OneLeafChanged(t, leaf, pages[leaf]);
          LeavesNow(T(), bounds, chain, queue, splitLevel, ranges);
        }
        ghost var was := queue;
        AddWriteQueue(leaf);
        QueuedMore(t, T(), was, queue);
        return;
      }
      isNull := ScanFrom(leaf, pos, first, last, c);
    }

    /** The loop of SacnIndex over the records of a leaf and over the leaves. */
    method ScanFrom(start: PageId, from: nat, first: real, last: real, ghost c0: nat) returns (isNull: bool)
      requires Valid() && c0 < |chain| && chain[c0] == start && start in pages && pages[start].Leaf?
      requires from <= |pages[start].recs| && Leaves(T(), chain) && Leaves(T(), chain[..c0])
      requires IsLowerBound(Contents(T(), chain), ByKey(first), |Contents(T(), chain[..c0])| + from)
      modifies this`pages, this`endLeaf, this`queue, this`ranges, this`bounds, this`chain
      ensures Valid() && Records() == old(Records()) && bounds == old(bounds) && chain == old(chain)
      ensures Leaves(T(), chain)
      ensures isNull <==> RunsIntoNull(old(Contents(T(), chain)), first, last)
      ensures !isNull ==> Contents(T(), chain) == ScannedRecs(old(Contents(T(), chain)), first, last)
      ensures LengthsKept(old(T()), T())
      ensures old(Whole(T())) ==> Whole(T())
      ensures SameBranches(old(T()), T()) && Queued(old(T()), T(), queue) && old(queue) <= queue
      ensures !isNull ==> start in queue
    {
      hide Queued, SameBranches, Sound, Stored, PageSpace.PageSpace.Valid, IsLowerBound, Contents, Leaves, Inv, ChainOk,
          Weighed, Whole, RunsIntoNull, Passed, ScannedTo, ScannedRecs, ReleasedPage, NoBytes, LengthsKept;
      ghost var all := Contents(T(), chain);
      ghost var c: nat, a: nat := c0, |Contents(T(), chain[..c0])| + from;
      ghost var g: nat := a;
      SoundParts(T(), bounds, chain, queue, splitLevel, ranges);
      AllSorted(T(), bounds, chain);
      PassedStart(all, first, last, a);
      var leaf, pos: nat := start, from;
      isNull := false;
      LengthsSame(T());
      QueuedSame(T(), queue);
      OneLeafChanged(T(), leaf, pages[leaf]);
      while true
        invariant Valid() && Records() == old(Records()) && bounds == old(bounds) && chain == old(chain) && !isNull
        invariant SameBranches(old(T()), T()) && Queued(old(T()), T(), queue) && old(queue) <= queue
        invariant leaf == start || start in queue
        invariant c < |chain| && chain[c] == leaf && leaf in pages && pages[leaf].Leaf? && pos <= |pages[leaf].recs|
        invariant Leaves(T(), chain) && Leaves(T(), chain[..c]) && g == |Contents(T(), chain[..c])| + pos
        invariant Passed(all, first, last, a, g) && Contents(T(), chain) == ScannedTo(all, a, g)
        invariant LengthsKept(old(T()), T())
        invariant old(Whole(T())) ==> Whole(T())
        decreases |chain| - c, |pages[leaf].recs| - pos
      {
        ghost var t := T();
        SoundParts(t, bounds, chain, queue, splitLevel, ranges);
        LeafWithin(t, bounds, chain, c, pos);
        if pos < |pages[leaf].recs| {
          var over;
          ghost var was := queue;
          isNull, over := ScanRecord(leaf, pos, first, last, c, all, a, g);
          LengthsKeptOn(old(T()), t, T());
          QueuedThen(old(T()), t, T(), was, queue);
          SameBranchesThen(old(T()), t, T());
          if isNull || over {
            return;
          }
          pos, g := pos + 1, g + 1;
        } else {
          var next := pages[leaf].next;
          ghost var was := queue;
          AddWriteQueue(leaf);
          QueuedMore(old(T()), t, was, queue);
          if next.None? {
            AtEnd(t, bounds, chain, c, all, a, g);
            PassedAll(all, first, last, a, g);
            return;
          }
          leaf, pos, c := next.value, 0, c + 1;
          LeafInChain(t, chain, c);
        }
      }
    }

    /** One record of the loop.  `over`: it lies behind the range. */
    method ScanRecord(leaf: PageId, pos: nat, first: real, last: real, ghost c: nat, ghost all: seq<Rec>, ghost a: nat,
        ghost g: nat) returns (isNull: bool, over: bool)
      requires Valid() && c < |chain| && chain[c] == leaf && leaf in pages && pages[leaf].Leaf?
      requires pos < |pages[leaf].recs| && Leaves(T(), chain) && Leaves(T(), chain[..c])
      requires g == |Contents(T(), chain[..c])| + pos && SortedRecs(all)
      requires Passed(all, first, last, a, g) && Contents(T(), chain) == ScannedTo(all, a, g)
      modifies this`pages, this`endLeaf, this`queue, this`ranges, this`bounds, this`chain
      ensures Valid() && Records() == old(Records()) && bounds == old(bounds) && chain == old(chain)
      ensures leaf in pages && pages[leaf].Leaf? && |pages[leaf].recs| == |old(pages[leaf]).recs|
      ensures Leaves(T(), chain) && Leaves(T(), chain[..c]) && g == |Contents(T(), chain[..c])| + pos
      ensures isNull ==> RunsIntoNull(all, first, last)
      ensures over ==>
                !isNull && !RunsIntoNull(all, first, last) && Contents(T(), chain) == ScannedRecs(all, first, last)
      ensures !isNull && !over ==>
                Passed(all, first, last, a, g + 1) && Contents(T(), chain) == ScannedTo(all, a, g + 1)
      ensures LengthsKept(old(T()), T()) && (old(Whole(T())) ==> Whole(T()))
      ensures SameBranches(old(T()), T()) && Queued(old(T()), T(), queue) && old(queue) <= queue
      ensures over ==> leaf in queue
    {
      hide Queued, SameBranches, Sound, Stored, PageSpace.PageSpace.Valid, Contents, Leaves, Inv, ChainOk, Whole,
          SortedRecs, RunsIntoNull, Passed, ScannedTo, ScannedRecs, ReleasedPage, NoBytes, LengthsKept;
      isNull, over := false, false;
      ghost var t := T();
      SoundParts(t, bounds, chain, queue, splitLevel, ranges);
      LengthsSame(t);
      QueuedSame(t, queue);
      OneLeafChanged(t, leaf, t.pages[leaf]);
      LeafWithin(t, bounds, chain, c, pos);
      assert g < |all| && pages[leaf].recs[pos] == all[g] by { SameThere(all, first, last, a, g); }
      if NoBytes(pages[leaf].recs[pos]) {
        PassedNull(all, first, last, a, g);
        isNull := true;
        return;
      }
      if pages[leaf].recs[pos].key.key > last {
        PassedAll(all, first, last, a, g);
        ghost var was := queue;
        AddWriteQueue(leaf);
        QueuedMore(t, t, was, queue);
        over := true;
        return;
      }
      PassedOne(all, first, last, a, g);
      ReleaseRecord(leaf, pos, c);
      OneLeafChanged(t, leaf, pages[leaf]);
      SoundParts(T(), bounds, chain, queue, splitLevel, ranges);
      ReleasedWithin(t, bounds, chain, c, pos);
    }

    method AddWriteQueue(p: PageId)
      requires Valid() && p in pages
      modifies this`queue
      ensures Valid() && queue == old(queue) + {p}
    {
      hide Inv, ChainOk, RangesOk, PageSpace.PageSpace.Valid;
      queue := queue + {p};
    }

    /** Inserts into the record vector or replaces the record there, and charges the page. */
    method PutRecord(p: PageId, pos: nat, over: bool, lr: Rec, ghost c: nat)
      requires Valid() && p in pages && pages[p].Leaf? && c < |chain| && chain[c] == p && p in bounds
      requires RecOk(lr, unique) && !lr.gone && !lr.due && In(lr.key, bounds[p]) && Place(pages[p].recs, pos, over, lr)
      requires if over then pos < |pages[p].recs| && !pages[p].recs[pos].due else pos <= |pages[p].recs|
      modifies this`pages, this`endLeaf, this`queue, this`ranges, this`bounds, this`chain
      ensures Valid() && old(queue) <= queue && p in queue && bounds == old(bounds) && chain == old(chain)
      ensures pages == old(pages)[p := PutPage(old(pages[p]), pos, over, lr)] && pages[p].Leaf?
      ensures queue == old(queue) + {p} && Queued(old(T()), T(), queue)
      ensures forall y :: y in Records() <==>
                            (y in old(Records()) && y.key != lr.key) || y == Covering(lr, old(pages[p].recs), pos, over)
      ensures forall lean :: old(Weighed(T(), lean)) && !(lean && over && ErasesUnfinished(old(pages[p].recs[pos]))) ==>
                Weighed(T(), lean)
      ensures old(Whole(T())) ==> Whole(T())
    {
      hide Sound, Stored, PageSpace.PageSpace.Valid, Live, RecOk, Put, Place, Weighed, Whole, In, Covering;
      PutSound(T(), bounds, chain, queue, splitLevel, ranges, c, pos, over, lr);
      Install(pages[p := PutPage(pages[p], pos, over, lr)], queue + {p}, endLeaf, ranges, bounds, chain);
    }

    // ---------- settling ----------

    /** One stop of the settling pass: everything up to the page is settled, and the stop's level keeps what the measure
        of the pass needs. */
    method SplitIfOverlength(p: PageId) returns (stuck: bool)
      requires Valid() && p in pages && p in queue && SettledUpTo(T(), Level(pages[p]), p - 1)
      requires !IsOverlength(pages[p]) ==> SettledUpTo(T(), Level(pages[p]), p)
      modifies this, store, store.garbage
      ensures Valid() && Records() == old(Records()) && old(queue) <= queue
      ensures stuck <==> IsOverlength(old(pages[p])) && Stuck(old(pages[p]))
      ensures stuck ==> T() == old(T()) && !AllSplittable(T()) && !Whole(T())
      ensures !stuck ==>
                && (if !IsOverlength(old(pages[p])) then T() == old(T()) && queue == old(queue)
                    else Effect(old(T()), T(), p) && (old(pages[p]).Leaf? ==> SplitUp(old(T()), T(), p)))
                && SettledUpTo(T(), Level(old(pages[p])), p)
                && (Level(old(pages[p])) > 0 ==> T() == old(T()) || Wide(T(), Level(old(pages[p]))))
      ensures AllSplittable(T()) <==> old(AllSplittable(T()))
      ensures LengthsKept(old(T()), T()) && (old(Whole(T())) ==> Whole(T()))
      ensures (old(Low(T())) ==> Low(T())) && Queued(old(T()), T(), queue)
    {
      hide Low, LowBut, Queued, SplitApart, ParentShort, Sound, Stored, Effect, PageSpace.PageSpace.Valid, Live,
          LeafPieces, BranchPieces, Greedy, SettledUpTo, Wide, LengthsKept, Whole, AllSplittable, Weighed, Inv, ChainOk;
      stuck := false;
      ghost var t, b := T(), bounds;
      SoundParts(t, b, chain, queue, splitLevel, ranges);
      LengthsSame(t);
      QueuedSame(t, queue);
      if IsOverlength(pages[p]) {
        ghost var ids, cuts;
        if pages[p].Leaf? {
          stuck, ids, cuts := SplitLeafPage(p);
          if !stuck { ApartEffect(t, T(), p, ids, cuts); }
        } else {
          if Low(t) { LowIsLowBut(t, p); }
          ids, cuts := SplitBranchPage(p);
        }
        if stuck {
          StuckThere(t, p);
        } else {
          SoundParts(T(), bounds, chain, queue, splitLevel, ranges);
          AfterStop(t, b, T(), bounds, p);
        }
      }
    }

    /** SettleUpdatedPages, the splitting pass: one walk over the write queue in ascending order, while splits put pages
        into it.  It goes wrong exactly when there is an overlong leaf that cannot be split.  Otherwise every overlong
        leaf becomes the greedy chunks of its records and every other leaf stays as it is. */
    method SplitUpdatedPages() returns (stuck: bool)
      requires Valid()
      modifies this, store, store.garbage
      ensures Valid() && Records() == old(Records()) && old(queue) <= queue
      ensures stuck <==> !old(AllSplittable(T()))
      ensures !stuck ==> AllSplittable(T()) && TreeSettled(old(T()), T())
      ensures (old(Low(T())) ==> Low(T())) && Queued(old(T()), T(), queue)
      ensures LengthsKept(old(T()), T())
      ensures old(Whole(T())) ==> Whole(T()) && !stuck
    {
      hide Low, Queued, LeavesTo, SplitUp, NoneOverlong, WalkedPast, NoStopBetween, TreeSettled, Sound, Stored, Effect,
          PageSpace.PageSpace.Valid, SettledUpTo, AllSplittable, Weighed, Whole, Wide, AheadItems, LevelQueue, At,
          Stuck, LengthsKept, Fits, IsOverlength, AtLimit, After, Inv, ChainOk, LeafPhase, PagesBelow;
      var l: nat, at: int := 0, -1;
      ghost var h := 0;
      stuck := false;
      StartOfWalk(T());
      LengthsSame(T());
      QueuedSame(T(), queue);
      StartOfLeaves(T());
      if Whole(T()) { WholeSplittable(T()); }
      while true
        invariant Valid() && Records() == old(Records()) && old(queue) <= queue
        invariant (AllSplittable(T()) <==> old(AllSplittable(T()))) && SettledUpTo(T(), l, at)
        invariant LengthsKept(old(T()), T())
        invariant old(Whole(T())) ==> Whole(T())
        invariant (old(Low(T())) ==> Low(T())) && Queued(old(T()), T(), queue)
        invariant LeavesTo(old(T()), T(), l, at) && (NoneOverlong(old(T())) ==> T() == old(T()))
        invariant l <= h && (l > 0 ==> rootPage in pages && (Level(pages[rootPage]) == h || Wide(T(), l)))
        decreases LeafPhase(l), PagesBelow(T(), l), h - l, AheadItems(T(), l, at), LevelQueue(T(), queue, l, at)
      {
        ghost var t, b, was, h0, l0, at0 := T(), bounds, queue, h, l, at;
        var more, p := NextStop(l, at);
        if !more {
          LeavesDone(old(T()), t, l, at);
          return;
        }
        SoundParts(t, b, chain, queue, splitLevel, ranges);
        RootIn(t, b, chain, queue, splitLevel, ranges);
        AfterMeans(t, l, at, p);
        l, at := Level(pages[p]), p;
        NoStopPassed(old(T()), t, l0, at0, l, (p as int) - 1);
        stuck := SplitIfOverlength(p);
        LengthsKeptOn(old(T()), t, T());
        QueuedThen(old(T()), t, T(), was, queue);
        NoneMeans(old(T()), p);
        if stuck {
          return;
        }
        SoundParts(T(), bounds, chain, queue, splitLevel, ranges);
        LeavesAtStop(old(T()), t, b, T(), bounds, l, p);
        if l > l0 {
          h := Level(t.pages[t.root]);
          LevelUp(t, b, T(), l0, h0, p);
        } else {
          SameLevel(t, b, T(), bounds, was, queue, l, at0, p);
        }
      }
    }

    /** The next page of the write queue behind position (l, at) of the walk. */
    method NextStop(l: nat, at: int) returns (more: bool, p: PageId)
      requires Valid() && SettledUpTo(T(), l, at)
      ensures more ==>
                && p in queue && p in pages && After(T(), l, at, p) && SettledUpTo(T(), Level(pages[p]), p - 1)
                && (!IsOverlength(pages[p]) ==> SettledUpTo(T(), Level(pages[p]), p))
                && NoStopBetween(T(), l, at, Level(pages[p]), p - 1)
      ensures !more ==>
                && AllSplittable(T()) && NoStopBetween(T(), l, at, l + 1, 0)
                && forall x :: x in pages ==> Fits(pages[x]) && (IsOverlength(pages[x]) <==> AtLimit(pages[x]))
    {
      hide Sound, PageSpace.PageSpace.Valid, SettledUpTo, AllSplittable, Fits, IsOverlength, AtLimit, After, Inv,
          ChainOk;
      QueueHolds(T(), bounds, chain, queue, splitLevel, ranges);
      p := rootPage;
      var ahead := set x | x in queue && x in pages && After(Tree(pages, rootPage, unique), l, at, x);
      more := ahead != {};
      if !more {
        forall x | x in queue && x in pages ensures !After(T(), l, at, x) { assert x !in ahead; }
        NothingAhead(T(), queue, l, at);
        AllSettled(T(), queue, l, at);
        forall x | x in pages ensures IsOverlength(pages[x]) <==> AtLimit(pages[x]) { FullIsOverlong(pages[x]); }
        return;
      }
      ghost var least := Least(T(), ahead);
      p :| p in ahead && forall x :: x in ahead && x != p ==>
          After(Tree(pages, rootPage, unique), Level(pages[p]), p, x);
      NextSettled(T(), queue, l, at, p);
      NothingBetween(T(), queue, l, at, p);
    }

    /** LeafPage::SaveRecords (src/core/LeafPage.cpp:67-131), without the page image. */
    method SaveRecords(p: PageId)
      requires Valid() && p in pages && pages[p].Leaf? && p in queue
      modifies this`pages, this`endLeaf, this`queue, this`ranges, this`bounds, this`chain
      ensures Valid() && T() == WithLeaf(old(T()), p, SavedPage(old(pages[p]))) && queue == old(queue)
      ensures Records() == old(Records())
      ensures LengthsKept(old(T()), T())
      ensures (old(Whole(T())) ==> Whole(T())) && (old(AllSplittable(T())) ==> AllSplittable(T()))
    {
      hide Sound, Stored, PageSpace.PageSpace.Valid, Live, Weighed, Whole, AllSplittable, LengthsKept;
      ghost var t, b := T(), bounds;
      SoundParts(t, b, chain, queue, splitLevel, ranges);
      ghost var c := InChain(t, b, chain, p);
      SavedSound(t, b, chain, queue, splitLevel, ranges, c, SavedPage(pages[p]));
      assert queue + {p} == queue;
      Install(pages[p := SavedPage(pages[p])], queue, endLeaf, ranges, b, chain);
    }

    /** SettleUpdatedPages, the saving pass.  `changed`: the pages that are valid and have changed.  What is not saved
        stays queued. */
    method SaveUpdatedPages(changed: set<PageId>)
      requires Valid()
      modifies this`pages, this`endLeaf, this`queue, this`ranges, this`bounds, this`chain
      ensures Valid() && Records() == old(Records()) && queue == old(queue)
      ensures T() == SavedTree(old(T()), queue, changed)
      ensures LengthsKept(old(T()), T())
      ensures (old(Whole(T())) ==> Whole(T())) && (old(AllSplittable(T())) ==> AllSplittable(T()))
    {
      hide Sound, Stored, PageSpace.PageSpace.Valid, Live, Weighed, Whole, AllSplittable, SavedPage, LengthsKept;
      QueuedPages(T(), bounds, chain, queue, splitLevel, ranges);
      LengthsSame(T());
      SavedNone(T(), changed);
      var todo := queue;
      while todo != {}
        invariant Valid() && Records() == old(Records()) && queue == old(queue) && todo <= queue <= pages.Keys
        invariant T() == SavedTree(old(T()), queue - todo, changed)
        invariant LengthsKept(old(T()), T())
        invariant (old(Whole(T())) ==> Whole(T())) && (old(AllSplittable(T())) ==> AllSplittable(T()))
        decreases |todo|
      {
        ghost var t := T();
        var p :| p in todo;
        SavedOne(old(T()), queue - todo, changed, p);
        assert queue - todo + {p} == queue - (todo - {p});
        if p in changed && pages[p].Leaf? && pages[p].comm <= MAX_LEAF {
          SaveRecords(p);
          LengthsKeptOn(old(T()), t, T());
        }
        todo := todo - {p};
      }
      assert queue - todo == queue;
    }

    /** IndexTree::SettleUpdatedPages: both passes.  `u`: the tree between them, in which every page fits; afterwards
        saved leaves count their lengths anew. */
    method SettleUpdatedPages(changed: set<PageId>) returns (stuck: bool, ghost u: Tree)
      requires Valid()
      modifies this, store, store.garbage
      ensures Valid() && Records() == old(Records()) && old(queue) <= queue
      ensures stuck <==> !old(AllSplittable(T()))
      ensures !stuck ==> AllSplittable(T()) && TreeSettled(old(T()), u) && T() == SavedTree(u, queue, changed)
      ensures stuck ==> T() == u
      ensures (old(Low(T())) ==> Low(T())) && Queued(old(T()), T(), queue)
      ensures LengthsKept(old(T()), T())
      ensures old(Whole(T())) ==> Whole(T()) && !stuck
    {
      hide IndexTree.Valid, IndexTree.Records, Weighed, Whole, AllSplittable, SavedPage, TreeSettled, Low, Queued,
          SavedTree, LengthsKept, SameBranches;
      stuck := SplitUpdatedPages();
      u := T();
      if !stuck {
        SaveUpdatedPages(changed);
        LengthsKeptOn(old(T()), u, T());
        SavedBranches(u, queue, changed);
        SavedQueued(old(T()), u, queue, changed);
        if Low(u) { SameBranchesLow(u, T()); }
      }
    }
  }

  // ---------- what the passes leave ----------

  /** Every leaf between two positions of the walk is within its limit. */
  ghost predicate NoStopBetween(t: Tree, l: nat, at: int, l': nat, at': int) {
    forall x {:trigger t.pages[x]} :: x in t.pages && t.pages[x].Leaf? ==>
      !WalkedPast(l, at, x) && WalkedPast(l', at', x) ==> !IsOverlength(t.pages[x])
  }

  lemma NoStopPassed(t: Tree, u: Tree, l: nat, at: int, l': nat, at': int)
    requires LeavesTo(t, u, l, at) && NoStopBetween(u, l, at, l', at') && (l' > l || (l' == l && at' >= at))
    ensures LeavesTo(t, u, l', at')
  {
    PassedOver(t, u, l, at, l', at');
  }

  lemma NothingAhead(t: Tree, queue: set<PageId>, l: nat, at: int)
    requires forall x {:trigger t.pages[x]} :: x in t.pages && IsOverlength(t.pages[x]) ==> x in queue
    requires forall x :: x in queue && x in t.pages ==> !After(t, l, at, x)
    ensures NoStopBetween(t, l, at, l + 1, 0)
  {
  }

  lemma NothingBetween(t: Tree, queue: set<PageId>, l: nat, at: int, p: PageId)
    requires forall x {:trigger t.pages[x]} :: x in t.pages && IsOverlength(t.pages[x]) ==> x in queue
    requires p in t.pages
    requires forall x :: x in queue && x in t.pages && After(t, l, at, x) && x != p ==>
        After(t, Level(t.pages[p]), p, x)
    ensures NoStopBetween(t, l, at, Level(t.pages[p]), p - 1)
  {
    hide IsOverlength;
    forall x | x in t.pages && t.pages[x].Leaf? && !WalkedPast(l, at, x) && WalkedPast(Level(t.pages[p]), p - 1, x)
      ensures !IsOverlength(t.pages[x])
    {
      assert After(t, l, at, x) && !After(t, Level(t.pages[p]), p, x);
      assert x != p;
    }
  }

  ghost predicate NoneOverlong(t: Tree) {
    forall x {:trigger t.pages[x]} :: x in t.pages ==> !IsOverlength(t.pages[x])
  }

  lemma NoneMeans(t: Tree, p: PageId)
    ensures NoneOverlong(t) && p in t.pages ==> !IsOverlength(t.pages[p])
  {
  }

  lemma LeavesDone(t: Tree, u: Tree, l: nat, at: int)
    requires LeavesTo(t, u, l, at) && NoStopBetween(u, l, at, l + 1, 0) && (NoneOverlong(t) ==> u == t)
    requires forall x :: x in u.pages ==> Fits(u.pages[x]) && (IsOverlength(u.pages[x]) <==> AtLimit(u.pages[x]))
    ensures TreeSettled(t, u)
  {
    PassedOver(t, u, l, at, l + 1, 0);
    hide LeafSettled, OneChunk, IsOverlength, AtLimit, Fits;
  }

  /** The leaf level after a stop. */
  lemma LeavesAtStop(t: Tree, u: Tree, b: Bounds, v: Tree, b': Bounds, l: nat, p: PageId)
    requires Inv(u, b) && Inv(v, b') && p in u.pages && l == Level(u.pages[p]) && LeavesTo(t, u, l, p - 1)
    requires if !IsOverlength(u.pages[p]) then v == u
             else Effect(u, v, p) && (u.pages[p].Leaf? ==> SplitUp(u, v, p))
    ensures LeavesTo(t, v, l, p)
  {
    hide LeavesTo, Effect, Inv, SplitApart, IsOverlength;
    LevelKind(u, b, p);
    if IsOverlength(u.pages[p]) && u.pages[p].Leaf? {
      var ids, cuts :| SplitApart(u, v, p, ids, cuts) && ParentShort(u, v, p, |cuts| > 1);
      LeafStop(t, u, v, p, ids, cuts);
    } else {
      PassedOver(t, u, l, p - 1, l, p);
      OtherStop(t, u, v, b', l, p, p);
    }
  }

  predicate Saves(page: Page, x: PageId, queue: set<PageId>, changed: set<PageId>) {
    x in queue && x in changed && page.Leaf? && page.comm <= MAX_LEAF
  }

  /** The tree after the saving pass. */
  function SavedTree(t: Tree, queue: set<PageId>, changed: set<PageId>): Tree {
    t.(pages := map x | x in t.pages ::
         if Saves(t.pages[x], x, queue, changed) then SavedPage(t.pages[x]) else t.pages[x])
  }

  lemma SavedNone(t: Tree, changed: set<PageId>)
    ensures forall q: set<PageId> :: q == {} ==> SavedTree(t, q, changed) == t
  {
    hide SavedPage;
    assert SavedTree(t, {}, changed).pages == t.pages;
  }

  lemma SavedOne(t: Tree, done: set<PageId>, changed: set<PageId>, p: PageId)
    requires p in t.pages && p !in done
    ensures SavedTree(t, done, changed).pages[p] == t.pages[p]
    ensures SavedTree(t, done + {p}, changed)
            == if p in changed && t.pages[p].Leaf? && t.pages[p].comm <= MAX_LEAF
               then WithLeaf(SavedTree(t, done, changed), p, SavedPage(t.pages[p]))
               else SavedTree(t, done, changed)
  {
    hide SavedPage;
    var u, v := SavedTree(t, done, changed), SavedTree(t, done + {p}, changed);
    forall x | x in t.pages && x != p ensures v.pages[x] == u.pages[x] {
      assert Saves(t.pages[x], x, done, changed) == Saves(t.pages[x], x, done + {p}, changed);
    }
    if Saves(t.pages[p], p, done + {p}, changed) {
      assert v.pages == u.pages[p := SavedPage(t.pages[p])];
    } else {
      assert v.pages == u.pages;
    }
  }

  lemma SavedBranches(t: Tree, queue: set<PageId>, changed: set<PageId>)
    ensures SameBranches(t, SavedTree(t, queue, changed))
  {
    var u := SavedTree(t, queue, changed);
    assert u.pages.Keys == t.pages.Keys;
  }

  lemma SavedQueued(t: Tree, u: Tree, queue: set<PageId>, changed: set<PageId>)
    requires Queued(t, u, queue)
    ensures Queued(t, SavedTree(u, queue, changed), queue)
  {
    hide SavedPage;
    forall x | x in u.pages && x !in queue
      ensures x in t.pages && SavedTree(u, queue, changed).pages[x] == t.pages[x]
    {
      assert u.pages[x] == t.pages[x];
    }
  }

  /** How many ranges the children of the root are dealt out to; none for one task. */
  function RangeCount(t: Tree, exptTaskNum: nat): nat
    requires t.root in t.pages
  {
    match t.pages[t.root]
    case Leaf(_, _, _, _, _, _, _) => 0
    case Branch(_, level, entries, _, _) =>
      if level < 2 || exptTaskNum == 1 || |entries| == 1 then 0
      else if |entries| < exptTaskNum then |entries| else exptTaskNum
  }

  lemma WholeSplittable(t: Tree)
    requires Whole(t)
    ensures AllSplittable(t)
  {
    hide WholePage, Stuck;
    forall x | x in t.pages && IsOverlength(t.pages[x]) ensures !Stuck(t.pages[x]) {
      WholeNotStuck(t.pages[x]);
    }
  }

  lemma StuckThere(t: Tree, p: PageId)
    requires p in t.pages && IsOverlength(t.pages[p]) && Stuck(t.pages[p])
    ensures !AllSplittable(t) && !Whole(t)
  {
    if Whole(t) { WholeNotStuck(t.pages[p]); }
  }


  lemma AfterMeans(t: Tree, l: nat, at: int, p: PageId)
    requires p in t.pages && After(t, l, at, p)
    ensures Level(t.pages[p]) > l || (Level(t.pages[p]) == l && p > at)
  {
  }

  lemma StartOfWalk(t: Tree)
    ensures SettledUpTo(t, 0, -1)
  {
  }

  lemma QueueHolds(t: Tree, b: Bounds, chain: seq<PageId>, queue: set<PageId>, level: nat, rs: seq<IndexRange>)
    requires Sound(t, b, chain, queue, level, rs)
    ensures forall x {:trigger t.pages[x]} :: x in t.pages && IsOverlength(t.pages[x]) ==> x in queue
    ensures queue <= t.pages.Keys && t.root in t.pages
  {
  }

  lemma QueuedPages(t: Tree, b: Bounds, chain: seq<PageId>, queue: set<PageId>, level: nat, rs: seq<IndexRange>)
    requires Sound(t, b, chain, queue, level, rs)
    ensures queue <= t.pages.Keys
  {
  }

  /** What the split of the page at a stop leaves of the measure and of the lengths. */
  lemma AfterStop(t: Tree, b: Bounds, t': Tree, b': Bounds, p: PageId)
    requires Inv(t, b) && Inv(t', b') && Effect(t, t', p) && !Stuck(t.pages[p])
    requires SettledUpTo(t, Level(t.pages[p]), p - 1)
    ensures SettledUpTo(t', Level(t.pages[p]), p)
    ensures Level(t.pages[p]) > 0 ==> Wide(t', Level(t.pages[p]))
    ensures AllSplittable(t) <==> AllSplittable(t')
    ensures LengthsKept(t, t')
    ensures Whole(t) ==> Whole(t')
  {
    hide Inv, SettledUpTo, Wide, Stuck, AllSplittable, Weighed, Whole, OldOk, NewOk;
    SettledStep(t, b, t', Level(t.pages[p]), p);
    if Level(t.pages[p]) > 0 { WideAfter(t, t', p); }
    SplittableStep(t, b, t', b', p);
    forall lean | Weighed(t, lean) ensures Weighed(t', lean) { WeighedStep(t, b, t', b', p, lean); }
    if Whole(t) { WholeStep(t, b, t', b', p); }
  }

  // ---------- searching ----------

  /** Pages from one level to the next, each covering the probe. */
  ghost predicate PathDown(t: Tree, b: Bounds, p: Probe, path: seq<PageId>) {
    && |path| > 0 && path[0] in t.pages
    && (forall i :: 0 <= i < |path| ==>
          path[i] in t.pages && path[i] in b && Targets(p, b[path[i]]) &&
              Level(t.pages[path[i]]) == Level(t.pages[path[0]]) - i)
    && (forall i :: 0 < i < |path| ==> t.pages[path[i]].parent == Some(path[i - 1]))
  }

  lemma RootTargets(t: Tree, b: Bounds, chain: seq<PageId>, queue: set<PageId>, level: nat, rs: seq<IndexRange>,
      p: Probe)
    requires Sound(t, b, chain, queue, level, rs)
    ensures t.root in t.pages && t.root in b && Targets(p, b[t.root])
  {
  }

  lemma SearchableRange(t: Tree, b: Bounds, chain: seq<PageId>, queue: set<PageId>, level: nat, rs: seq<IndexRange>,
      p: Probe, r: nat)
    requires Sound(t, b, chain, queue, level, rs) && rs != [] && IsSlotFor(Borders(rs), p, r)
    ensures r < |rs| && |rs[r].pages| > 0 && AllHaveEntries(t, rs[r].pages)
    ensures SortedKeys(LastSeps(t, rs[r].pages)) && SepsOnly(t.unique, LastSeps(t, rs[r].pages))
    ensures Tiles(t, b, level, rs[r].pages, LoOf(rs, r), HiOf(rs, r)) && Targets(p, Range(LoOf(rs, r), HiOf(rs, r)))
  {
    hide Inv, ChainOk, QueueOk, LastSeps;
    RangeTargets(rs, p, r);
    RangeAt(t, b, level, rs, r);
    TilesSearchable(t, b, level, rs[r].pages, LoOf(rs, r), HiOf(rs, r));
  }

  /** The page the index ranges route a probe to is the one page of the split level that covers it. */
  lemma RouteTargets(t: Tree, b: Bounds, chain: seq<PageId>, queue: set<PageId>, level: nat, rs: seq<IndexRange>,
      p: Probe, r: nat, j: nat)
    requires Sound(t, b, chain, queue, level, rs) && r < |rs|
    requires Tiles(t, b, level, rs[r].pages, LoOf(rs, r), HiOf(rs, r)) && Targets(p, Range(LoOf(rs, r), HiOf(rs, r)))
    requires AllHaveEntries(t, rs[r].pages) && IsSlotFor(LastSeps(t, rs[r].pages), p, j)
    ensures j < |rs[r].pages|
    ensures var page := rs[r].pages[j];
      && page in t.pages && page in b
      && forall x :: OnLevel(t, b, level, x) && Targets(p, b[x]) <==> x == page
  {
    hide Inv, ChainOk, QueueOk, RangesOk, Targets, LastSeps, AllHaveEntries;
    TopTargets(t, b, level, rs[r].pages, LoOf(rs, r), HiOf(rs, r), p, j);
    forall x | OnLevel(t, b, level, x) && Targets(p, b[x]) ensures x == rs[r].pages[j] {
      TargetUnique(t, b, x, rs[r].pages[j], p);
    }
  }

  lemma SearchableSeps(t: Tree, b: Bounds, chain: seq<PageId>, queue: set<PageId>, level: nat, rs: seq<IndexRange>,
      q: PageId)
    requires Sound(t, b, chain, queue, level, rs) && IsBranch(t, q)
    ensures |t.pages[q].entries| > 0
    ensures SortedKeys(Seps(t.pages[q].entries)) && SepsOnly(t.unique, Seps(t.pages[q].entries))
  {
    BranchContent(t, b, q);
  }

  lemma StepDown(t: Tree, b: Bounds, chain: seq<PageId>, queue: set<PageId>, level: nat, rs: seq<IndexRange>,
      p: Probe, q: PageId, i: nat)
    requires Sound(t, b, chain, queue, level, rs) && IsBranch(t, q) && q in b && Targets(p, b[q])
    requires IsSlotFor(Seps(t.pages[q].entries), p, i)
    ensures i < |t.pages[q].entries|
    ensures var c := t.pages[q].entries[i].child;
      c in t.pages && c in b && Targets(p, b[c]) && t.pages[c].parent == Some(q) &&
          Level(t.pages[c]) + 1 == Level(t.pages[q])
  {
    hide ContentOk, ChainOk, QueueOk, RangesOk, Targets, ChildRange;
    Kid(t, b, q, i);
    DownSlot(t.pages[q].entries, b[q], i, p);
  }

  lemma PathEnd(t: Tree, b: Bounds, p: Probe, path: seq<PageId>)
    requires PathDown(t, b, p, path)
    ensures path[|path| - 1] in t.pages && path[|path| - 1] in b && Targets(p, b[path[|path| - 1]])
  {
  }

  /** Routing and descent agree: a search from the root passes the page the index ranges route to. */
  lemma RouteMeetsDescent(t: Tree, b: Bounds, p: Probe, path: seq<PageId>, level: nat, page: PageId)
    requires Inv(t, b) && PathDown(t, b, p, path) && path[0] == t.root && t.pages[path[|path| - 1]].Leaf?
    requires OnLevel(t, b, level, page) && Targets(p, b[page])
    ensures level < |path| && path[Level(t.pages[t.root]) - level] == page
  {
    hide Targets, ContentOk;
    assert PageOk(t, b, page);
    var i := Level(t.pages[t.root]) - level;
    assert Level(t.pages[path[|path| - 1]]) == Level(t.pages[path[0]]) - (|path| - 1);
    assert Level(t.pages[path[i]]) == level;
    TargetUnique(t, b, path[i], page, p);
  }

  /** A record search that misses in its leaf misses in the tree. */
  lemma FoundInTree(t: Tree, b: Bounds, chain: seq<PageId>, c: nat, p: Probe, pos: nat)
    requires Inv(t, b) && ChainOk(t, b, chain) && c < |chain| && Targets(p, b[chain[c]])
    requires IsLowerBound(t.pages[chain[c]].recs, p, pos)
    ensures Leaves(t, chain)
    ensures p.ByRecord? ==>
              ((exists x :: x in Contents(t, chain) && x.key == p.k)
               <==> pos < |t.pages[chain[c]].recs| && t.pages[chain[c]].recs[pos].key == p.k)
  {
    var s := t.pages[chain[c]].recs;
    ChainLeaves(t, b, chain);
    LeafSorted(t, b, chain[c]);
    hide Inv, ChainOk, Contents;
    ContentsAround(t, chain, c);
    if p.ByRecord? {
      InTargets(p.k, b[chain[c]]);
      forall x | x in Contents(t, chain) && x.key == p.k ensures pos < |s| && s[pos].key == p.k {
        OnlyHere(t, b, chain, c, x, p.k);
        var j :| 0 <= j < |s| && s[j] == x;
        LowerBoundIs(s, p.k, pos, j);
      }
      if pos < |s| && s[pos].key == p.k {
        assert s[pos] in Contents(t, chain);
      }
    }
  }

  // ---------- index tasks ----------

  /** The share of the first i ranges when num pages go to n ranges and the last num % n get one more. */
  lemma EvenShare(num: nat, n: nat, i: nat)
    requires 0 < n <= num && i <= n
    ensures var a, rest := num / n, num % n;
      && a >= 1
      && a * i + (if i > n - rest then i - (n - rest) else 0) + (if i == n
          then 0 else a + if rest >= n - i then 1 else 0)
         == (if i == n then num else a * (i + 1) + (if i + 1 > n - rest then i + 1 - (n - rest) else 0))
      && (i < n ==> a * (i + 1) + (if i + 1 > n - rest then i + 1 - (n - rest) else 0) <= num)
  {
    var a, rest := num / n, num % n;
    EvenShareOf(num, n, i, a, rest);
  }

  lemma EvenShareOf(num: nat, n: nat, i: nat, a: nat, rest: nat)
    requires 0 < n <= num && i <= n && num == a * n + rest && rest < n
    ensures a >= 1
    ensures a * (i + 1) == a * i + a
    ensures i < n ==> a * (i + 1) + (if i + 1 > n - rest then i + 1 - (n - rest) else 0) <= num
  {
    assert a * (i + 1) == a * i + a;
    if i < n {
      var d := n - (i + 1);
      assert a * n == a * (i + 1) + a * d;
    }
  }

  lemma DealtMore(t: Tree, es: seq<Entry>, rs: seq<IndexRange>, starts: seq<nat>, r: IndexRange, d: nat)
    requires Dealt(t, es, rs, starts) && RangeDealt(t, es, r, starts[|rs|], d)
    ensures Dealt(t, es, rs + [r], starts + [d])
  {
    forall k | 0 <= k < |rs + [r]| ensures RangeDealt(t, es, (rs + [r])[k], (starts + [d])[k], (starts + [d])[k + 1]) {
      if k < |rs| { assert RangeDealt(t, es, rs[k], starts[k], starts[k + 1]); }
    }
  }

  lemma RootKind(t: Tree, b: Bounds)
    requires Inv(t, b)
    ensures t.root in t.pages && (Level(t.pages[t.root]) >= 1 <==> IsBranch(t, t.root))
    ensures IsBranch(t, t.root) ==> |t.pages[t.root].entries| > 0
  {
    assert PageOk(t, b, t.root);
  }

  lemma RecsFit(t: Tree, b: Bounds, p: PageId)
    requires Inv(t, b) && p in t.pages && t.pages[p].Leaf?
    ensures AllFit(t.pages[p].recs, MAX_LEAF)
  {
    assert PageOk(t, b, p);
  }

  lemma LeafFacts(t: Tree, b: Bounds, p: PageId)
    requires Inv(t, b) && p in t.pages && t.pages[p].Leaf? && Live(t.pages[p].recs) != []
    ensures p in b && |t.pages[p].recs| > 0
    ensures var k := t.pages[p].recs[|t.pages[p].recs| - 1].key; In(k, b[p]) && (t.unique ==> k.val == 0.0)
    ensures var s := Live(t.pages[p].recs);
      (t.unique ==> s[|s| - 1].key.val == 0.0) && 0 < s[|s| - 1].klen <= s[|s| - 1].elen <= MAX_ENTRY
  {
    assert PageOk(t, b, p);
    LiveOk(t.pages[p].recs, b[p], t.unique);
  }

  lemma EntriesFit(all: seq<Entry>)
    requires EntryLens(all)
    ensures EachFits(ELens(all), ELens(all), BRANCH_LIMITS.max) && forall i :: 0 <= i < |all| ==> ELens(all)[i] > 0
  {
  }

  lemma SoundParts(t: Tree, b: Bounds, chain: seq<PageId>, queue: set<PageId>, level: nat, rs: seq<IndexRange>)
    requires Sound(t, b, chain, queue, level, rs)
    ensures Inv(t, b) && ChainOk(t, b, chain) && queue <= t.pages.Keys
  {
  }

  lemma NewIdsFrom(m: PageTable, ids: seq<PageId>)
    requires Distinct(ids) && Elems(ids) !! m.Keys
    ensures NewIds(m, ids)
  {
    forall x | x in ids ensures x !in m { assert x in Elems(ids); }
  }

  /** The first and the last leaf after a leaf split. */
  lemma ChainEnds(t: Tree, b: Bounds, chain: seq<PageId>, p: PageId, c: nat, vctId: seq<PageId>)
    requires ChainOk(t, b, chain) && c < |chain| && chain[c] == p && p in t.pages && t.pages[p].Leaf?
    ensures var s := ChainSplice(chain, c, [p] + vctId);
      && |s| == |chain| + |vctId| && s[0] == chain[0]
      && s[|s| - 1] == if t.pages[p].next.None? && |vctId| > 0 then vctId[|vctId| - 1] else chain[|chain| - 1]
  {
    assert Linked(t, chain, c);
    var s := ChainSplice(chain, c, [p] + vctId);
    SpliceIndex(chain, c, [p] + vctId, 0);
    SpliceIndex(chain, c, [p] + vctId, |s| - 1);
  }

  lemma QueueIn(t: Tree, b: Bounds, chain: seq<PageId>, m': PageTable, p: PageId, q: PageId, i: nat,
      vctId: seq<PageId>, es: seq<Entry>,
                live: seq<Rec>, cuts: seq<nat>, clens: seq<int>, tlens: seq<int>, c: nat)
    requires ChainOk(t, b, chain) && c < |chain| && chain[c] == p
    requires LeafSplitOf(t, m', q, i, [p] + vctId, es, live, cuts, clens, tlens)
    ensures m'.Keys == t.pages.Keys + Elems(vctId) && q in t.pages && p in t.pages && t.pages[p].Leaf?
    ensures Elems([p] + vctId) == {p} + Elems(vctId)
    ensures t.pages[p].next.Some? ==> t.pages[p].next.value in t.pages
  {
    hide Splice, ELens, LeafPlaced;
    assert Linked(t, chain, c);
    var ids := [p] + vctId;
    assert ids[0] == p;
    forall x ensures x in ids <==> x == p || x in vctId {
      if x in vctId { var j :| 0 <= j < |vctId| && vctId[j] == x; assert ids[j + 1] == x; }
    }
  }

  /** What a leaf split changes is queued. */
  lemma LeafQueued(t: Tree, b: Bounds, chain: seq<PageId>, m': PageTable, p: PageId, q: PageId, i: nat,
      vctId: seq<PageId>, es: seq<Entry>, live: seq<Rec>, cuts: seq<nat>, clens: seq<int>, tlens: seq<int>, c: nat,
      queue': set<PageId>)
    requires ChainOk(t, b, chain) && c < |chain| && chain[c] == p && p in t.pages && t.pages[p].Leaf?
    requires LeafSplitOf(t, m', q, i, [p] + vctId, es, live, cuts, clens, tlens)
    requires p in queue' && q in queue' && (vctId != [] ==> Elems(vctId) <= queue')
    requires vctId != [] && t.pages[p].next.Some? ==> t.pages[p].next.value in queue'
    ensures Queued(t, Tree(m', t.root, t.unique), queue')
  {
    hide Splice, ELens, LeafPlaced;
    assert Linked(t, chain, c);
    if c + 1 < |chain| { assert Linked(t, chain, c + 1); }
    var ids := [p] + vctId;
    forall x | x in m' && x !in queue' ensures x in t.pages && m'[x] == t.pages[x] {
      NotQueued(p, vctId, queue', x);
      assert vctId == [] ==> ids[|ids| - 1] == p;
    }
  }

  /** What a branch split changes is queued. */
  lemma BranchQueued(t: Tree, b: Bounds, m': PageTable, p: PageId, q: PageId, i: nat, vctId: seq<PageId>,
      es: seq<Entry>,
      cuts: seq<nat>, lens: seq<int>, queue': set<PageId>)
    requires Inv(t, b) && IsBranch(t, p) && BranchSplitOf(t, m', q, i, [p] + vctId, es, cuts, lens)
    requires p in queue' && q in queue' && Elems(vctId) <= queue'
    requires cuts[0] <= |t.pages[p].entries| && Kids(t.pages[p].entries[cuts[0]..]) <= queue'
    ensures Queued(t, Tree(m', t.root, t.unique), queue')
  {
    hide Splice, ELens, BranchPlaced, ContentOk, Adopted, OthersKept;
    var ids, all := [p] + vctId, t.pages[p].entries;
    assert ids[0] == p && Adopted(t.pages, m', all, cuts, ids, 0) && OthersKept(t.pages, m', all, ids, q);
    forall x | x in m' && x !in queue' ensures x in t.pages && m'[x] == t.pages[x] {
      BranchQueuedAt(t, b, m', p, q, vctId, cuts, queue', x);
    }
  }

  lemma NotQueued(p: PageId, vctId: seq<PageId>, queue: set<PageId>, x: PageId)
    requires p in queue && x !in queue && (vctId != [] ==> Elems(vctId) <= queue)
    ensures x !in [p] + vctId
  {
    assert x in vctId ==> x in Elems(vctId);
  }

  lemma KidBefore(all: seq<Entry>, a: nat, k: nat)
    requires a <= |all| && k < |all|
    ensures k >= a ==> all[k].child in Kids(all[a..])
  {
    if k >= a { assert all[a..][k - a].child == all[k].child; }
  }

  lemma BranchQueuedAt(t: Tree, b: Bounds, m': PageTable, p: PageId, q: PageId, vctId: seq<PageId>, cuts: seq<nat>,
      queue': set<PageId>, x: PageId)
    requires Inv(t, b) && IsBranch(t, p) && |cuts| == |vctId| + 1
    requires p in queue' && q in queue' && Elems(vctId) <= queue' && x !in queue'
    requires cuts[0] <= |t.pages[p].entries| && Kids(t.pages[p].entries[cuts[0]..]) <= queue'
    requires x in m' && (x in t.pages || x in [p] + vctId)
    requires Adopted(t.pages, m', t.pages[p].entries, cuts, [p] + vctId, 0)
    requires OthersKept(t.pages, m', t.pages[p].entries, [p] + vctId, q)
    ensures x in t.pages && m'[x] == t.pages[x]
  {
    hide ContentOk;
    var ids, all := [p] + vctId, t.pages[p].entries;
    NotQueued(p, vctId, queue', x);
    if HasChild(all, x) {
      var k :| 0 <= k < |all| && all[k].child == x;
      KidBefore(all, cuts[0], k);
      Kid(t, b, p, k);
      assert m'[all[k].child] == WithParent(t.pages[all[k].child], Some(ids[0]));
    }
  }

  lemma SearchableBorders(t: Tree, b: Bounds, chain: seq<PageId>, queue: set<PageId>, level: nat, rs: seq<IndexRange>)
    requires Sound(t, b, chain, queue, level, rs) && rs != []
    ensures SortedKeys(Borders(rs)) && SepsOnly(t.unique, Borders(rs))
  {
  }

  lemma InOwnRange(t: Tree, b: Bounds, chain: seq<PageId>, queue: set<PageId>, level: nat, rs: seq<IndexRange>,
                   p: PageId, k: Key, r: nat)
    requires Sound(t, b, chain, queue, level, rs) && rs != [] && IsBranch(t, p) && t.pages[p].level == level
    requires p in b && In(k, b[p]) && IsSlotFor(Borders(rs), ByRecord(k), r)
    ensures r < |rs| && p in rs[r].pages
  {
    hide Inv, RangesOk, In;
    OwnRange(t, b, level, rs, p, k, r);
  }

  lemma LastRecord(t: Tree, b: Bounds, p: PageId)
    requires Inv(t, b) && IsBranch(t, p)
    ensures p in b && |t.pages[p].entries| > 0
    ensures var e := t.pages[p].entries[|t.pages[p].entries| - 1];
      In(e.sep, b[p]) && (t.unique ==> e.sep.val == 0.0) && EntryFit(e)
    ensures EntryLens(t.pages[p].entries)
  {
    BranchContent(t, b, p);
  }

  lemma CutOrderFirst(cuts: seq<nat>, n: nat)
    requires CutsOk(cuts, n)
    ensures Start(cuts, 0) < cuts[0] <= n
  {
  }

  lemma BranchQueueIn(t: Tree, b: Bounds, m': PageTable, p: PageId, q: PageId, i: nat, vctId: seq<PageId>,
      es: seq<Entry>,
                      cuts: seq<nat>, lens: seq<int>, a: nat)
    requires Inv(t, b) && IsBranch(t, p) && BranchSplitOf(t, m', q, i, [p] + vctId, es, cuts, lens)
    requires a <= |t.pages[p].entries|
    ensures m'.Keys == t.pages.Keys + Elems(vctId) && q in t.pages && Kids(t.pages[p].entries[a..]) <= t.pages.Keys
    ensures Elems([p] + vctId) == {p} + Elems(vctId)
  {
    hide Splice, ELens, BranchPlaced, Adopted, OthersKept, ContentOk;
    forall c | c in Kids(t.pages[p].entries[a..]) ensures c in t.pages {
      var k :| 0 <= k < |t.pages[p].entries| - a && t.pages[p].entries[a..][k].child == c;
      Kid(t, b, p, a + k);
    }
    var ids := [p] + vctId;
    assert ids[0] == p;
    forall x ensures x in ids <==> x == p || x in vctId {
      if x in vctId { var j :| 0 <= j < |vctId| && vctId[j] == x; assert ids[j + 1] == x; }
    }
  }

  lemma RootIn(t: Tree, b: Bounds, chain: seq<PageId>, queue: set<PageId>, level: nat, rs: seq<IndexRange>)
    requires Sound(t, b, chain, queue, level, rs)
    ensures t.root in t.pages
  {
  }

  lemma OneId(ids: seq<PageId>)
    requires |ids| == 1
    ensures Elems(ids) == {ids[0]}
  {
  }

  /** The tree is the one leaf p. */
  predicate OneLeaf(t: Tree, p: Page) {
    t.pages == map[t.root := p] && p.Leaf?
  }

  const EMPTY_LEAF := Leaf(None, [], 0, 0, None, None, true)

  lemma FirstPage(id: PageId, unique: bool)
    ensures var t := Tree(map[id := EMPTY_LEAF], id, unique);
      && Sound(t, map[id := ALL], [id], {}, 0, []) && Stored(t, [id]) == []
      && OneLeaf(t, EMPTY_LEAF) && Weighed(t, true) && Whole(t)
  {
    var t, b := Tree(map[id := EMPTY_LEAF], id, unique), map[id := ALL];
    assert PageOk(t, b, id);
    assert Linked(t, [id], 0);
    ContentsOne(t, id);
  }

  lemma GrowPages(t: Tree, q: PageId, e: Entry)
    requires t.root in t.pages && q !in t.pages
    ensures Grow(t, q, e) == Tree(t.pages[t.root := WithParent(t.pages[t.root], Some(q))]
                                  [q := Branch(None, Level(t.pages[t.root]) + 1, [e], e.len, true)], q, t.unique)
  {
  }

  /** What a split needs to know of the parent before it searches there. */
  lemma ParentOrRoot(t: Tree, b: Bounds, chain: seq<PageId>, queue: set<PageId>, level: nat, rs: seq<IndexRange>,
      p: PageId)
    requires Sound(t, b, chain, queue, level, rs) && p in t.pages
    ensures t.root in t.pages && p in b
    ensures t.pages[p].parent.None? ==> p == t.root && b[p] == ALL
    ensures t.pages[p].parent.Some? ==>
              var q := t.pages[p].parent.value;
              && IsBranch(t, q) && |t.pages[q].entries| > 0
              && SortedKeys(Seps(t.pages[q].entries)) && SepsOnly(t.unique, Seps(t.pages[q].entries))
  {
    assert PageOk(t, b, p);
    if t.pages[p].parent.Some? {
      BranchContent(t, b, t.pages[p].parent.value);
    }
  }

  lemma OwnEntryFound(t: Tree, b: Bounds, chain: seq<PageId>, queue: set<PageId>, level: nat, rs: seq<IndexRange>,
                      p: PageId, q: PageId, k: Key, i: nat)
    requires Sound(t, b, chain, queue, level, rs) && p in t.pages && p in b && In(k, b[p])
    requires t.pages[p].parent == Some(q) && IsBranch(t, q) && IsSlotFor(Seps(t.pages[q].entries), ByRecord(k), i)
    ensures i < |t.pages[q].entries| && t.pages[q].entries[i].child == p
  {
    hide ContentOk, EntriesOk, ChildRange, IsSlotFor, ChainOk, QueueOk, RangesOk;
    assert PageOk(t, b, p);
    var q', j := Up(t, b, p);
    BranchContent(t, b, q);
    InTargets(k, b[p]);
    OwnSlot(t.pages[q].entries, b[q], j, ByRecord(k), t.unique);
    SlotUnique(Seps(t.pages[q].entries), ByRecord(k), i, j);
  }
}
