/** The split methods up to the finished page table (src/core/LeafPage.cpp:453-637,
    src/core/BranchPage.cpp:262-380). */
module SplitTables {
  import opened KeyOrder
  import opened GreedySplit
  import opened PageIds
  import opened Pages
  import opened Search
  import opened LeafCuts
  import opened TreeInv
  import opened TreeSplit
  import opened TreePieces
  import opened LeafChain
  import opened Ranges
  import opened SplitBuild
  import opened SplitSound
  import opened SettleOrder
  import opened TreeState

  // ---------- the parent's entry ----------

  /** What the invariant says of the entry a parent holds for a page. */
  lemma EntryHeld(t: Tree, b: Bounds, q: PageId, i: nat)
    requires Inv(t, b) && IsBranch(t, q) && i < |t.pages[q].entries|
    ensures var e, p := t.pages[q].entries[i], t.pages[q].entries[i].child;
      && p in b && p in t.pages && p != q && t.pages[p].parent == Some(q)
      && HeldFor(e.sep, b[p], t.unique) && EntryFit(e)
      && (b[p].hi.Fin? ==> e.sep == b[p].hi.k)
  {
    Kid(t, b, q, i);
    BranchContent(t, b, q);
  }

  /** The entries of the pieces fit the range of the split page. */
  lemma NewEntriesOk(keys: seq<Key>, cuts: seq<nat>, es: seq<Entry>, before: Key, r: Range, unique: bool)
    requires KeysOk(keys, r, unique) && PieceSeps(keys, cuts, es, before) && HeldFor(before, r, unique) && EntryLens(es)
    requires r.hi.Fin? ==> before == r.hi.k
    requires r.hi.Fin? ==>
               || es[|es| - 1].sep == Max(keys[|keys| - 1], before) || es[|es| - 1].sep == before
               || keys[|keys| - 1] == r.hi.k
    ensures EntriesOk(es, r, unique)
  {
    if r.hi.Fin? {
      assert In(keys[|keys| - 1], r);
    }
    PieceEntries(keys, cuts, es, before, r, unique);
  }

  // ---------- leaf pages ----------

  lemma TailsOfRecs(live: seq<Rec>)
    ensures TailKeys(RecTails(live)) == RecKeys(live)
    ensures AllFit(live, MAX_LEAF) ==> TailLens(RecTails(live))
  {
  }

  lemma LeafCutsOk(live: seq<Rec>, cuts: seq<nat>, clens: seq<int>, tlens: seq<int>)
    requires GreedyCut(live, cuts, clens, tlens, LEAF_LIMITS) && |live| > 0
    ensures CutsOk(cuts, |live|) && |clens| == |tlens| == |cuts| > 0
  {
    hide ChunkLengths;
    assert |clens| == |tlens| == |cuts| by { LengthsCount(CLens(live), cuts, clens);
        LengthsCount(TLens(live), cuts, tlens); }
    GreedyCutsOk(CLens(live), TLens(live), cuts, LEAF_LIMITS);
  }

  lemma LengthsCount(s: seq<nat>, cuts: seq<nat>, lens: seq<int>)
    requires ChunkLengths(s, cuts, lens)
    ensures |lens| == |cuts|
  {
  }

  ghost predicate NewIds(m: PageTable, ids: seq<PageId>) {
    Distinct(ids) && forall x :: x in ids ==> x !in m
  }

  lemma PieceIds(m: PageTable, p: PageId, vctId: seq<PageId>)
    requires p in m && NewIds(m, vctId)
    ensures Distinct([p] + vctId) && forall j :: 1 <= j < |vctId| + 1 ==> ([p] + vctId)[j] !in m
  {
    var ids := [p] + vctId;
    forall j | 1 <= j < |ids| ensures ids[j] !in m && ids[j] in vctId {
      assert ids[j] == vctId[j - 1];
    }
  }

  /** LeafPage::SplitPage after the cut.  `keep`: the parent existed before, and gets its old entry back
      when the leaf is not cut. */
  method LeafSplitTable(m: PageTable, ghost t: Tree, ghost b: Bounds, p: PageId, q: PageId, i: nat, keep: bool,
                        live: seq<Rec>, cuts: seq<nat>, clens: seq<int>, tlens: seq<int>, vctId: seq<PageId>)
    returns (es: seq<Entry>, m': PageTable)
    requires Inv(t, b) && m == t.pages && p in m && m[p].Leaf?
    requires IsBranch(t, q) && i < |m[q].entries| && m[q].entries[i].child == p
    requires live == Live(m[p].recs) && |live| > 0 && GreedyCut(live, cuts, clens, tlens, LEAF_LIMITS)
    requires |vctId| + 1 == |cuts| && NewIds(m, vctId)
    requires keep || (p in b && b[p].hi == PosInf)
    ensures LeafSplitOf(t, m', q, i, [p] + vctId, es, live, cuts, clens, tlens)
    ensures |es| == |vctId| + 1 && p in b && (keep && |cuts| == 1 ==> es == [m[q].entries[i]])
    ensures PieceSeps(RecKeys(live), cuts, es, m[q].entries[i].sep) && EntriesOk(es, b[p], t.unique)
  {
    hide Inv, Live, GreedyCut, CLens, TLens, RecTails, RecKeys, TailKeys, PieceSeps, EntriesOk, EntryLens,
        LeafSplitDone, RecsOk, HeldFor, KeysOk, Distinct, ChildRange, TailLens, CutsOk;
    var ids := [p] + vctId;
    var before := m[q].entries[i];
    es := [before];
    EntryHeld(t, b, q, i);
    LiveInRange(t, b, p);
    LeafKeysOk(live, b[p], t.unique);
    LeafCutsOk(live, cuts, clens, tlens);
    TailsOfRecs(live);
    FitOf(live, b[p], t.unique);
    PieceIds(m, p, vctId);
    KeptEntry(RecKeys(live), cuts, before);
    if |cuts| > 1 || !keep {
      es := PieceEntriesFor(RecTails(live), cuts, ids, before);
    }
    NewEntriesOk(RecKeys(live), cuts, es, before.sep, b[p], t.unique);
    m' := BuildLeafSplit(m, q, i, ids, es, live, cuts, clens, tlens);
    assert OwnEntry(t, q, i, ids, es);
  }

  lemma FitOf(s: seq<Rec>, r: Range, unique: bool)
    requires RecsOk(s, r, unique)
    ensures AllFit(s, MAX_LEAF)
  {
  }

  /** An uncut page's old entry. */
  lemma KeptEntry(keys: seq<Key>, cuts: seq<nat>, before: Entry)
    requires |keys| > 0 && CutsOk(cuts, |keys|) && EntryFit(before)
    ensures |cuts| == 1 ==> PieceSeps(keys, cuts, [before], before.sep)
    ensures EntryLens([before])
  {
  }

  // ---------- branch pages ----------

  lemma TailsOfEntries(unique: bool, all: seq<Entry>)
    ensures TailKeys(EntryTails(unique, all)) == Seps(all)
    ensures EntryLens(all) ==> TailLens(EntryTails(unique, all))
  {
  }

  lemma EntryLensOf(all: seq<Entry>, r: Range, unique: bool)
    requires EntriesOk(all, r, unique)
    ensures EntryLens(all) && |all| > 0 && (r.hi.Fin? ==> all[|all| - 1].sep == r.hi.k)
  {
  }

  lemma BranchCutsOk(all: seq<Entry>, cuts: seq<nat>, lens: seq<int>)
    requires |all| > 0 && Greedy(ELens(all), ELens(all), cuts, BRANCH_LIMITS) && ChunkLengths(ELens(all), cuts, lens)
    ensures CutsOk(cuts, |all|) && |lens| == |cuts| > 0
  {
    GreedyCutsOk(ELens(all), ELens(all), cuts, BRANCH_LIMITS);
  }

  lemma KidsApartOf(t: Tree, b: Bounds, q: PageId, p: PageId, vctId: seq<PageId>)
    requires Inv(t, b) && IsBranch(t, p) && t.pages[p].parent == Some(q) && NewIds(t.pages, vctId)
    ensures KidsApart(t.pages, t.pages[p].entries, [p] + vctId, q)
    ensures forall k :: 0 <= k < |t.pages[p].entries| ==> t.pages[t.pages[p].entries[k].child].parent == Some(p)
  {
    hide ContentOk, Inv;
    var all := t.pages[p].entries;
    forall k | 0 <= k < |all|
      ensures all[k].child in t.pages && t.pages[all[k].child].parent == Some(p)
      ensures all[k].child !in [p] + vctId && all[k].child != q
    {
      ChildElsewhere(t, b, p, q, k);
    }
    forall j, k | 0 <= j < k < |all| ensures all[j].child != all[k].child {
      if all[j].child == all[k].child { SameChildSameSlot(t, b, p, j, k); }
    }
  }

  lemma ChildElsewhere(t: Tree, b: Bounds, p: PageId, q: PageId, k: nat)
    requires Inv(t, b) && IsBranch(t, p) && t.pages[p].parent == Some(q) && k < |t.pages[p].entries|
    ensures var c := t.pages[p].entries[k].child;
      c in t.pages && t.pages[c].parent == Some(p) && c != p && c != q
  {
    hide ContentOk;
    Kid(t, b, p, k);
    var q', j := Up(t, b, p);
  }

  /** BranchPage::SplitPage after the cut. */
  method BranchSplitTable(unique: bool, m: PageTable, ghost t: Tree, ghost b: Bounds, p: PageId, q: PageId, i: nat,
                          cuts: seq<nat>, lens: seq<int>, vctId: seq<PageId>)
    returns (es: seq<Entry>, m': PageTable)
    requires Inv(t, b) && m == t.pages && unique == t.unique && p in m && m[p].Branch?
    requires IsBranch(t, q) && i < |m[q].entries| && m[q].entries[i].child == p
    requires Greedy(ELens(m[p].entries), ELens(m[p].entries), cuts, BRANCH_LIMITS) &&
        ChunkLengths(ELens(m[p].entries), cuts, lens)
    requires |vctId| + 1 == |cuts| && NewIds(m, vctId)
    ensures BranchSplitOf(t, m', q, i, [p] + vctId, es, cuts, lens)
    ensures |es| == |vctId| + 1 && p in b
    ensures PieceSeps(Seps(m[p].entries), cuts, es, m[q].entries[i].sep) && EntriesOk(es, b[p], t.unique)
  {
    hide Inv, Greedy, ELens, EntryTails, TailKeys, Seps, PieceSeps, EntriesOk, EntryLens, BranchSplitDone, HeldFor,
        KeysOk, Distinct, ChildRange, TailLens, CutsOk, KidsApart, ChunkLengths, NewIds;
    var ids := [p] + vctId;
    var before, all := m[q].entries[i], m[p].entries;
    EntryHeld(t, b, q, i);
    BranchContent(t, b, p);
    EntryLensOf(all, b[p], t.unique);
    BranchKeysOk(all, b[p], t.unique);
    BranchCutsOk(all, cuts, lens);
    TailsOfEntries(unique, all);
    PieceIds(m, p, vctId);
    KidsApartOf(t, b, q, p, vctId);
    es := PieceEntriesFor(EntryTails(unique, all), cuts, ids, before);
    assert Seps(all)[|all| - 1] == all[|all| - 1].sep by { LastSepAt(all); }
    NewEntriesOk(Seps(all), cuts, es, before.sep, b[p], t.unique);
    m' := BuildBranchSplit(m, q, i, ids, es, cuts, lens);
    assert OwnEntry(t, q, i, ids, es);
  }

  lemma LastSepAt(all: seq<Entry>)
    requires |all| > 0
    ensures Seps(all)[|all| - 1] == all[|all| - 1].sep
  {
  }
}
