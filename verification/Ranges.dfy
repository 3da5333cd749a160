/** Index ranges: the pages of one branch level dealt out to index tasks (src/core/IndexTree.h:105-130,
    src/core/IndexTree.cpp:39-102 and 543-604, src/core/BranchPage.cpp:364-380). */
module Ranges {
  import opened KeyOrder
  import opened PageIds
  import opened Pages
  import opened Search
  import opened TreeInv
  import opened TreeSplit
  import opened TreePieces
  import opened LeafChain

  /** One task's share of the split level: its right border and its pages in order. */
  datatype IndexRange = IndexRange(border: Key, pages: seq<PageId>)

  function Borders(rs: seq<IndexRange>): (r: seq<Key>)
    ensures |r| == |rs|
  {
    seq(|rs|, i requires 0 <= i < |rs| => rs[i].border)
  }

  function LoOf(rs: seq<IndexRange>, i: nat): Ext
    requires i < |rs|
  {
    if i == 0 then NegInf else Fin(rs[i - 1].border)
  }

  /** The last range is open to the right, whatever its recorded border. */
  function HiOf(rs: seq<IndexRange>, i: nat): Ext
    requires i < |rs|
  {
    if i == |rs| - 1 then PosInf else Fin(rs[i].border)
  }

  ghost predicate OnLevel(t: Tree, b: Bounds, level: nat, id: PageId) {
    IsBranch(t, id) && t.pages[id].level == level && id in b
  }

  /** Page j starts where the page before it ends. */
  ghost predicate Joined(b: Bounds, ids: seq<PageId>, j: nat) {
    && 0 < j < |ids| && ids[j - 1] in b && ids[j] in b
    && b[ids[j - 1]].hi == b[ids[j]].lo
  }

  /** The pages are neighbours on their level and together cover (lo, hi]. */
  ghost predicate Tiles(t: Tree, b: Bounds, level: nat, ids: seq<PageId>, lo: Ext, hi: Ext) {
    && |ids| > 0
    && (forall j :: 0 <= j < |ids| ==> OnLevel(t, b, level, ids[j]))
    && b[ids[0]].lo == lo && b[ids[|ids| - 1]].hi == hi
    && (forall j {:trigger Joined(b, ids, j)} :: 0 < j < |ids| ==> Joined(b, ids, j))
  }

  /** The ranges cut the level in order.  There are none when a single task serves the tree. */
  ghost predicate RangesOk(t: Tree, b: Bounds, level: nat, rs: seq<IndexRange>) {
    rs != [] ==>
      && SortedKeys(Borders(rs))
      && SepsOnly(t.unique, Borders(rs))
      && (forall i {:trigger rs[i].pages} :: 0 <= i < |rs| ==>
          Tiles(t, b, level, rs[i].pages, LoOf(rs, i), HiOf(rs, i)))
  }

  // ---------- routing ----------

  ghost predicate HasEntries(t: Tree, id: PageId) {
    IsBranch(t, id) && |t.pages[id].entries| > 0
  }

  ghost predicate AllHaveEntries(t: Tree, ids: seq<PageId>) {
    forall j {:trigger ids[j]} :: 0 <= j < |ids| ==> HasEntries(t, ids[j])
  }

  function LastSep(t: Tree, id: PageId): Key
    requires HasEntries(t, id)
  {
    t.pages[id].entries[|t.pages[id].entries| - 1].sep
  }

  /** The separators a range search compares with: the last one of each page. */
  function LastSeps(t: Tree, ids: seq<PageId>): (r: seq<Key>)
    requires AllHaveEntries(t, ids)
    ensures |r| == |ids|
  {
    seq(|ids|, j requires 0 <= j < |ids| && HasEntries(t, ids[j]) => LastSep(t, ids[j]))
  }

  lemma LastSepOf(t: Tree, b: Bounds, id: PageId)
    requires Inv(t, b) && IsBranch(t, id)
    ensures HasEntries(t, id) && id in b
    ensures var k := LastSep(t, id);
      In(k, b[id]) && (b[id].hi.Fin? ==> k == b[id].hi.k) && (t.unique ==> k.val == 0.0)
  {
    assert PageOk(t, b, id);
    EntriesOf(t, b, id);
  }

  lemma TilesEntries(t: Tree, b: Bounds, level: nat, ids: seq<PageId>, lo: Ext, hi: Ext)
    requires Inv(t, b) && Tiles(t, b, level, ids, lo, hi)
    ensures AllHaveEntries(t, ids)
  {
    hide Inv;
    forall j | 0 <= j < |ids| ensures HasEntries(t, ids[j]) {
      LastSepOf(t, b, ids[j]);
    }
  }

  lemma TilesSearchable(t: Tree, b: Bounds, level: nat, ids: seq<PageId>, lo: Ext, hi: Ext)
    requires Inv(t, b) && Tiles(t, b, level, ids, lo, hi)
    ensures AllHaveEntries(t, ids)
    ensures SortedKeys(LastSeps(t, ids)) && SepsOnly(t.unique, LastSeps(t, ids))
  {
    hide Inv, LastSep;
    TilesEntries(t, b, level, ids, lo, hi);
    var s := LastSeps(t, ids);
    forall i, j | 0 <= i < j < |ids| ensures Lt(s[i], s[j]) {
      LastSepOf(t, b, ids[i]);
      LastSepOf(t, b, ids[j]);
      TilesOrder(t, b, level, ids, lo, hi, i, j);
    }
    forall i | 0 <= i < |s| ensures t.unique ==> s[i].val == 0.0 {
      LastSepOf(t, b, ids[i]);
    }
  }

  lemma {:induction false} TilesOrder(t: Tree, b: Bounds, level: nat, ids: seq<PageId>, lo: Ext, hi: Ext, i: nat,
      j: nat)
    requires Inv(t, b) && Tiles(t, b, level, ids, lo, hi) && i < j < |ids|
    ensures b[ids[i]].hi.Fin? && b[ids[j]].lo.Fin? && Le(b[ids[i]].hi.k, b[ids[j]].lo.k)
    decreases j
  {
    hide Inv;
    assert Joined(b, ids, j);
    RangeProper(t, b, ids[j]);
    RangeProper(t, b, ids[j - 1]);
    if i < j - 1 {
      TilesOrder(t, b, level, ids, lo, hi, i, j - 1);
    }
  }

  /** The range a probe is sent to covers the probe. */
  lemma RangeTargets(rs: seq<IndexRange>, p: Probe, i: nat)
    requires |rs| > 0 && IsSlotFor(Borders(rs), p, i)
    ensures Targets(p, Range(LoOf(rs, i), HiOf(rs, i)))
  {
    if i > 0 { assert Before(Borders(rs)[i - 1], p); }
  }

  lemma TopTargets(t: Tree, b: Bounds, level: nat, ids: seq<PageId>, lo: Ext, hi: Ext, p: Probe, j: nat)
    requires Inv(t, b) && Tiles(t, b, level, ids, lo, hi) && Targets(p, Range(lo, hi))
    requires AllHaveEntries(t, ids)
    requires IsSlotFor(LastSeps(t, ids), p, j)
    ensures Targets(p, b[ids[j]])
  {
    hide Inv;
    LastSepOf(t, b, ids[j]);
    if j > 0 {
      LastSepOf(t, b, ids[j - 1]);
      TilesOrder(t, b, level, ids, lo, hi, j - 1, j);
      assert Joined(b, ids, j);
      assert Before(LastSeps(t, ids)[j - 1], p);
    }
    if j < |ids| - 1 {
      TilesOrder(t, b, level, ids, lo, hi, j, j + 1);
    } else {
      assert b[ids[j]].hi == hi;
    }
    if j == 0 { assert b[ids[j]].lo == lo; }
  }

  // ---------- splits and the ranges ----------

  lemma TilesKept(t: Tree, b: Bounds, t': Tree, b': Bounds, level: nat, ids: seq<PageId>, lo: Ext, hi: Ext)
    requires Tiles(t, b, level, ids, lo, hi)
    requires forall id :: OnLevel(t, b, level, id) ==> OnLevel(t', b', level, id) && b'[id] == b[id]
    ensures Tiles(t', b', level, ids, lo, hi)
  {
    forall j | 0 < j < |ids| ensures Joined(b', ids, j) {
      assert Joined(b, ids, j);
    }
  }

  /** A change that leaves the pages of the split level and their bounds alone keeps the ranges. */
  lemma RangesKept(t: Tree, b: Bounds, t': Tree, b': Bounds, level: nat, rs: seq<IndexRange>)
    requires RangesOk(t, b, level, rs) && t'.unique == t.unique
    requires forall id :: OnLevel(t, b, level, id) ==> OnLevel(t', b', level, id) && b'[id] == b[id]
    ensures RangesOk(t', b', level, rs)
  {
    hide Tiles;
    forall i | 0 <= i < |rs| ensures Tiles(t', b', level, rs[i].pages, LoOf(rs, i), HiOf(rs, i)) {
      TilesKept(t, b, t', b', level, rs[i].pages, LoOf(rs, i), HiOf(rs, i));
    }
  }

  function PagesSplice(ids: seq<PageId>, j: nat, pieces: seq<PageId>): seq<PageId>
    requires j < |ids|
  {
    ChainSplice(ids, j, pieces)
  }

  /** A split page of the level is replaced by its pieces; the tiling stays. */
  lemma TilesSplit(t: Tree, b: Bounds, t': Tree, b': Bounds, level: nat, ids: seq<PageId>, lo: Ext, hi: Ext,
                   j: nat, pieces: seq<PageId>, es: seq<Entry>)
    requires Tiles(t, b, level, ids, lo, hi) && j < |ids|
    requires Rebounded(b, b', pieces, es) && pieces[0] == ids[j]
    requires forall m :: 0 <= m < |pieces| ==> OnLevel(t', b', level, pieces[m])
    requires forall m :: 0 <= m < |ids| && m != j ==> OnLevel(t', b', level, ids[m]) && b'[ids[m]] == b[ids[m]]
    ensures Tiles(t', b', level, PagesSplice(ids, j, pieces), lo, hi)
  {
    var s, n := PagesSplice(ids, j, pieces), |pieces|;
    forall d | 0 <= d < |s|
      ensures OnLevel(t', b', level, s[d])
      ensures d == 0 ==> b'[s[d]].lo == lo
      ensures d == |s| - 1 ==> b'[s[d]].hi == hi
      ensures d > 0 ==> Joined(b', s, d)
    {
      SpliceIndex(ids, j, pieces, d);
      if d > 0 { SpliceIndex(ids, j, pieces, d - 1); }
      assert b'[pieces[0]].lo == b[ids[j]].lo && b'[pieces[n - 1]].hi == b[ids[j]].hi;
      if d >= j + n { assert Joined(b, ids, d - n + 1); }
      if 0 < d <= j { assert Joined(b, ids, d); }
    }
  }

  /** Where the split looks for the page: its own range, and its place in it. */
  lemma OwnRange(t: Tree, b: Bounds, level: nat, rs: seq<IndexRange>, id: PageId, k: Key, i: nat)
    requires Inv(t, b) && RangesOk(t, b, level, rs) && rs != [] && OnLevel(t, b, level, id)
    requires In(k, b[id]) && IsSlotFor(Borders(rs), ByRecord(k), i)
    ensures id in rs[i].pages
  {
    hide Inv, RangesOk;
    InTargets(k, b[id]);
    RangeTargets(rs, ByRecord(k), i);
    assert Tiles(t, b, level, rs[i].pages, LoOf(rs, i), HiOf(rs, i)) by { RangeAt(t, b, level, rs, i); }
    var ids := rs[i].pages;
    TilesSearchable(t, b, level, ids, LoOf(rs, i), HiOf(rs, i));
    var j := SomeSlot(LastSeps(t, ids), ByRecord(k));
    TopTargets(t, b, level, ids, LoOf(rs, i), HiOf(rs, i), ByRecord(k), j);
    TargetUnique(t, b, id, ids[j], ByRecord(k));
  }

  lemma RangeAt(t: Tree, b: Bounds, level: nat, rs: seq<IndexRange>, i: nat)
    requires RangesOk(t, b, level, rs) && i < |rs|
    ensures Tiles(t, b, level, rs[i].pages, LoOf(rs, i), HiOf(rs, i))
  {
  }

  lemma {:induction false} SomeSlot(s: seq<Key>, p: Probe) returns (j: nat)
    requires |s| > 0
    ensures IsSlotFor(s, p, j)
  {
    if |s| == 1 || !Before(s[0], p) {
      j := 0;
    } else {
      var k := SomeSlot(s[1..], p);
      j := k + 1;
      assert forall m :: 0 < m < |s| ==> s[m] == s[1..][m - 1];
    }
  }

  // ---------- dealing out the children of the root ----------

  function ChildIds(es: seq<Entry>): (r: seq<PageId>)
    ensures |r| == |es|
  {
    seq(|es|, j requires 0 <= j < |es| => es[j].child)
  }

  /** Range k holds the children starts[k] to starts[k + 1] and is bordered by the last separator of its
      last page. */
  ghost predicate RangeDealt(t: Tree, es: seq<Entry>, r: IndexRange, a: nat, d: nat) {
    && a < d <= |es| && r.pages == ChildIds(es)[a..d]
    && HasEntries(t, es[d - 1].child) && r.border == LastSep(t, es[d - 1].child)
  }

  ghost predicate Dealt(t: Tree, es: seq<Entry>, rs: seq<IndexRange>, starts: seq<nat>) {
    && |starts| == |rs| + 1 && starts[0] == 0
    && (forall k {:trigger rs[k]} :: 0 <= k < |rs| ==> RangeDealt(t, es, rs[k], starts[k], starts[k + 1]))
  }

  lemma {:induction false} StartsIncrease(t: Tree, es: seq<Entry>, rs: seq<IndexRange>, starts: seq<nat>, k: nat,
      m: nat)
    requires Dealt(t, es, rs, starts) && k < m < |starts|
    ensures starts[k] < starts[m] <= |es|
    decreases m
  {
    assert RangeDealt(t, es, rs[m - 1], starts[m - 1], starts[m]);
    if k < m - 1 { StartsIncrease(t, es, rs, starts, k, m - 1); }
  }

  /** The border of a range is the separator the root holds for its last page, except at the right end. */
  lemma DealtBorder(t: Tree, b: Bounds, rs: seq<IndexRange>, starts: seq<nat>, k: nat)
    requires Inv(t, b) && IsBranch(t, t.root) && t.pages[t.root].level >= 2
    requires Dealt(t, t.pages[t.root].entries, rs, starts) && k < |rs|
    ensures var es, d := t.pages[t.root].entries, starts[k + 1];
      && 0 < d <= |es| && In(rs[k].border, ChildRange(es, ALL, d - 1)) && (t.unique ==> rs[k].border.val == 0.0)
      && (d < |es| ==> rs[k].border == es[d - 1].sep)
  {
    hide ContentOk;
    var es, d := t.pages[t.root].entries, starts[k + 1];
    assert RangeDealt(t, es, rs[k], starts[k], d);
    Kid(t, b, t.root, d - 1);
    LastSepOf(t, b, es[d - 1].child);
  }

  lemma DealtTiles(t: Tree, b: Bounds, rs: seq<IndexRange>, starts: seq<nat>, k: nat)
    requires Inv(t, b) && IsBranch(t, t.root) && t.pages[t.root].level >= 2 && k < |rs|
    requires Dealt(t, t.pages[t.root].entries, rs, starts) && starts[|rs|] == |t.pages[t.root].entries|
    ensures Tiles(t, b, t.pages[t.root].level - 1, rs[k].pages, LoOf(rs, k), HiOf(rs, k))
  {
    hide ContentOk, Inv;
    var es, a, d := t.pages[t.root].entries, starts[k], starts[k + 1];
    assert RangeDealt(t, es, rs[k], a, d);
    DealtBorder(t, b, rs, starts, k);
    if k > 0 { DealtBorder(t, b, rs, starts, k - 1); StartsIncrease(t, es, rs, starts, k, |rs|); }
    if k < |rs| - 1 { StartsIncrease(t, es, rs, starts, k + 1, |rs|); }
    var ids := rs[k].pages;
    forall j | 0 <= j < |ids|
      ensures OnLevel(t, b, t.pages[t.root].level - 1, ids[j]) && b[ids[j]] == ChildRange(es, ALL, a + j)
    {
      RootKid(t, b, a + j);
      assert ids[j] == es[a + j].child;
    }
  }

  lemma RootKid(t: Tree, b: Bounds, j: nat)
    requires Inv(t, b) && IsBranch(t, t.root) && t.pages[t.root].level >= 2 && j < |t.pages[t.root].entries|
    ensures var c := t.pages[t.root].entries[j].child;
      OnLevel(t, b, t.pages[t.root].level - 1, c) && b[c] == ChildRange(t.pages[t.root].entries, ALL, j)
  {
    hide ContentOk;
    Kid(t, b, t.root, j);
  }

  /** The ranges dealt out at the start of the tasks cut the level below the root in order. */
  lemma DealtOk(t: Tree, b: Bounds, rs: seq<IndexRange>, starts: seq<nat>)
    requires Inv(t, b) && IsBranch(t, t.root) && t.pages[t.root].level >= 2
    requires Dealt(t, t.pages[t.root].entries, rs, starts) && starts[|rs|] == |t.pages[t.root].entries|
    ensures RangesOk(t, b, t.pages[t.root].level - 1, rs)
  {
    hide Tiles, Inv, Dealt;
    var es := t.pages[t.root].entries;
    assert EntriesOk(es, ALL, t.unique) by { RootEntries(t, b); }
    forall k | 0 <= k < |rs| ensures Tiles(t, b, t.pages[t.root].level - 1, rs[k].pages, LoOf(rs, k), HiOf(rs, k)) {
      DealtTiles(t, b, rs, starts, k);
    }
    forall k | 0 <= k < |rs| ensures t.unique ==> rs[k].border.val == 0.0 {
      DealtBorder(t, b, rs, starts, k);
    }
    forall k, m | 0 <= k < m < |rs| ensures Lt(rs[k].border, rs[m].border) {
      DealtBorder(t, b, rs, starts, k);
      DealtBorder(t, b, rs, starts, m);
      DealtCount(t, es, rs, starts);
      StartsIncrease(t, es, rs, starts, k + 1, m + 1);
      BordersIncrease(es, starts[k + 1], starts[m + 1], rs[m].border);
    }
  }

  lemma BordersIncrease(es: seq<Entry>, d: nat, e: nat, k: Key)
    requires SortedEntries(es) && 0 < d < e <= |es| && In(k, ChildRange(es, ALL, e - 1))
    ensures Lt(es[d - 1].sep, k)
  {
    assert d == e - 1 || Lt(es[d - 1].sep, es[e - 2].sep);
  }

  lemma DealtCount(t: Tree, es: seq<Entry>, rs: seq<IndexRange>, starts: seq<nat>)
    requires Dealt(t, es, rs, starts)
    ensures |starts| == |rs| + 1
  {
  }

  lemma RootEntries(t: Tree, b: Bounds)
    requires Inv(t, b) && IsBranch(t, t.root)
    ensures EntriesOk(t.pages[t.root].entries, ALL, t.unique)
  {
    assert PageOk(t, b, t.root);
  }
}
