/** The pieces of a split page: separators, contents and children (src/core/LeafPage.cpp:548-585,
    src/core/BranchPage.cpp:300-362). */
module TreePieces {
  import opened KeyOrder
  import opened GreedySplit
  import opened PageIds
  import opened Pages
  import opened Search
  import opened LeafCuts
  import opened TreeInv
  import opened TreeSplit

  /** The cut positions split n items into non-empty pieces. */
  ghost predicate CutsOk(cuts: seq<nat>, n: nat) {
    && |cuts| > 0 && cuts[|cuts| - 1] == n
    && (forall j {:trigger Start(cuts, j)} :: 0 <= j < |cuts| ==> Start(cuts, j) < cuts[j] <= n)
  }

  lemma GreedyCutsOk(c: seq<nat>, t: seq<nat>, cuts: seq<nat>, l: Limits)
    requires |c| == |t| > 0 && Greedy(c, t, cuts, l)
    ensures CutsOk(cuts, |c|)
  {
    forall j {:trigger Start(cuts, j)} | 0 <= j < |cuts| ensures Start(cuts, j) < cuts[j] <= |c| {
      ChunkAt(c, t, cuts, l, j);
    }
  }

  lemma {:induction false} CutOrder(cuts: seq<nat>, n: nat, i: nat, j: nat)
    requires CutsOk(cuts, n) && i < j < |cuts|
    ensures 0 < cuts[i] <= Start(cuts, j) < cuts[j] <= n
    decreases j
  {
    assert Start(cuts, i) < cuts[i] && Start(cuts, j) < cuts[j];
    if i < j - 1 {
      CutOrder(cuts, n, i, j - 1);
    }
  }

  function Max(a: Key, b: Key): Key {
    if Lt(a, b) then b else a
  }

  /** The separators of the pieces: the last key of each piece, but the last piece may keep the separator the
      parent held before when that is larger, and a page that is not cut keeps it in any case. */
  ghost predicate PieceSeps(keys: seq<Key>, cuts: seq<nat>, es: seq<Entry>, before: Key) {
    && |keys| > 0 && CutsOk(cuts, |keys|) && |es| == |cuts|
    && (forall j :: 0 <= j < |es| - 1 ==> 0 < cuts[j] <= |keys| && es[j].sep == keys[cuts[j] - 1])
    && (es[|es| - 1].sep == keys[|keys| - 1] || es[|es| - 1].sep == Max(keys[|keys| - 1], before)
        || (|es| == 1 && es[0].sep == before))
  }

  ghost predicate KeysOk(keys: seq<Key>, r: Range, unique: bool) {
    && |keys| > 0 && SortedKeys(keys)
    && (forall i :: 0 <= i < |keys| ==> In(keys[i], r))
    && SepsOnly(unique, keys)
  }

  /** The separator the parent held for a page with range r. */
  ghost predicate HeldFor(before: Key, r: Range, unique: bool) {
    && In(before, r) && (unique ==> before.val == 0.0)
  }

  lemma PieceEntries(keys: seq<Key>, cuts: seq<nat>, es: seq<Entry>, before: Key, r: Range, unique: bool)
    requires KeysOk(keys, r, unique) && PieceSeps(keys, cuts, es, before) && HeldFor(before, r, unique)
    requires EntryLens(es) && (r.hi.Fin? ==> es[|es| - 1].sep == r.hi.k)
    ensures EntriesOk(es, r, unique)
  {
    var n := |es| - 1;
    forall i, j | 0 <= i < j < |es| ensures Lt(es[i].sep, es[j].sep) {
      CutOrder(cuts, |keys|, i, j);
      assert Lt(keys[cuts[i] - 1], keys[cuts[j] - 1]);
    }
    forall i | 0 <= i < |es| ensures In(es[i].sep, r) && (unique ==> es[i].sep.val == 0.0) {
      if i < n { assert In(keys[cuts[i] - 1], r); } else { assert In(keys[|keys| - 1], r); }
    }
    assert In(keys[|keys| - 1], r);
  }

  lemma PieceIn(keys: seq<Key>, cuts: seq<nat>, es: seq<Entry>, before: Key, r: Range, unique: bool, j: nat, m: nat)
    requires KeysOk(keys, r, unique) && PieceSeps(keys, cuts, es, before)
    requires j < |es| && Start(cuts, j) <= m < cuts[j]
    ensures m < |keys| && In(keys[m], ChildRange(es, r, j))
  {
    assert Start(cuts, j) < cuts[j] <= |keys|;
    assert In(keys[m], r);
    if j > 0 {
      CutOrder(cuts, |keys|, j - 1, j);
      assert Lt(keys[cuts[j - 1] - 1], keys[m]);
    }
    if j < |es| - 1 && m < cuts[j] - 1 {
      assert Lt(keys[m], keys[cuts[j] - 1]);
    }
  }

  // ---------- everything about a piece but its content ----------

  lemma PieceLinks(t: Tree, b: Bounds, t': Tree, b': Bounds, q: PageId, i: nat, ids: seq<PageId>, es: seq<Entry>,
      j: nat)
    requires Inv(t, b) && Replaced(t, t', q, i, ids, es) && Rebounded(b, b', ids, es)
    requires EntriesOk(es, b[ids[0]], t.unique) && j < |ids|
    requires ContentOk(t'.pages[ids[j]], ChildRange(es, b[ids[0]], j), t.unique)
    requires t'.pages[ids[j]].Branch? ==> KidsOk(t', b', ids[j])
    ensures PageOk(t', b', ids[j])
  {
    hide ContentOk, EntriesOk, KidsOk, ChildRange, ELens;
    Kid(t, b, q, i);
    assert PageOk(t, b, ids[0]);
    ChildRangeProper(es, b[ids[0]], j, t.unique);
    NotItself(t, b, q, i, ids);
    LevelOfRoot(t, t', q, ids, es, i);
    SpliceAt(t.pages[q].entries, i, es, i + j);
    assert t'.pages[q].entries[i + j].child == ids[j];
    assert ids[j] != t.root;
  }

  // ---------- leaf pieces ----------

  function RecKeys(s: seq<Rec>): (r: seq<Key>)
    ensures |r| == |s|
  {
    seq(|s|, i requires 0 <= i < |s| => s[i].key)
  }

  /** The j-th piece of the records. */
  ghost predicate LeafPiece(p: Page, live: seq<Rec>, cuts: seq<nat>, j: nat)
    requires j < |cuts|
  {
    && p.Leaf? && Start(cuts, j) <= cuts[j] <= |live|
    && p.recs == live[Start(cuts, j)..cuts[j]]
    && p.comm == Part(CLens(live), Start(cuts, j), cuts[j])
    && p.temp == Part(TLens(live), Start(cuts, j), cuts[j])
  }

  lemma LeafPieceContent(p: Page, live: seq<Rec>, cuts: seq<nat>, es: seq<Entry>, before: Key, r: Range, unique: bool,
      j: nat)
    requires RecsOk(live, r, unique) && |live| > 0 && PieceSeps(RecKeys(live), cuts, es, before)
    requires j < |cuts| && LeafPiece(p, live, cuts, j) && Start(cuts, j) < cuts[j]
    ensures ContentOk(p, ChildRange(es, r, j), unique)
  {
    hide ChildRange, RecsOk, RecFit, CLens, TLens, Part;
    var a, d := Start(cuts, j), cuts[j];
    LeafKeysOk(live, r, unique);
    forall m | a <= m < d ensures In(live[m].key, ChildRange(es, r, j)) {
      PieceIn(RecKeys(live), cuts, es, before, r, unique, j, m);
    }
    RecsSlice(live, r, unique, a, d, ChildRange(es, r, j));
  }

  lemma RecsSlice(s: seq<Rec>, r: Range, unique: bool, a: nat, d: nat, r': Range)
    requires RecsOk(s, r, unique) && a <= d <= |s| && forall m :: a <= m < d ==> In(s[m].key, r')
    ensures RecsOk(s[a..d], r', unique)
  {
    hide In, RecFit;
    assert forall m :: 0 <= m < d - a ==> s[a..d][m] == s[a + m];
  }

  lemma LeafPieceSums(s: seq<Rec>, live: seq<Rec>, a: nat, d: nat)
    requires a <= d <= |live| && s == live[a..d]
    ensures Sum(CLens(s)) == Part(CLens(live), a, d) && Sum(TLens(s)) == Part(TLens(live), a, d)
  {
    SumSlice(CLens(live), a, d);
    SumSlice(TLens(live), a, d);
    assert CLens(s) == CLens(live)[a..d] && TLens(s) == TLens(live)[a..d];
  }

  /** What a split counts for records that are not due covers what they are charged. */
  lemma {:induction false} CountsCover(s: seq<Rec>, k: nat)
    requires AllFit(s, MAX_LEAF) && AllLive(s) && k <= |s|
    ensures Part(Comms(s), 0, k) == Part(CLens(s), 0, k) && Part(Temps(s), 0, k) <= Part(TLens(s), 0, k)
  {
    if k > 0 {
      CountsCover(s, k - 1);
      assert RecFit(s[k - 1], MAX_LEAF);
    }
  }

  lemma LeafKeysOk(live: seq<Rec>, r: Range, unique: bool)
    requires RecsOk(live, r, unique) && |live| > 0
    ensures KeysOk(RecKeys(live), r, unique)
  {
  }

  lemma LiveOk(s: seq<Rec>, r: Range, unique: bool)
    requires RecsOk(s, r, unique)
    ensures RecsOk(Live(s), r, unique)
  {
    LiveSorted(s);
    FitLive(s, MAX_LEAF);
    var live := Live(s);
    forall i | 0 <= i < |live| ensures In(live[i].key, r) && (unique ==> live[i].key.val == 0.0) {
      LiveHas(s, live[i]);
      assert live[i] in live;
      var y :| y in s && !y.gone && live[i] == AfterRelease(y);
    }
  }

  // ---------- branch pieces ----------

  ghost predicate BranchPiece(p: Page, level: nat, all: seq<Entry>, cuts: seq<nat>, j: nat)
    requires j < |cuts|
  {
    && p.Branch? && p.level == level && Start(cuts, j) <= cuts[j] <= |all|
    && p.entries == all[Start(cuts, j)..cuts[j]]
    && p.comm == Part(ELens(all), Start(cuts, j), cuts[j])
  }

  lemma BranchKeysOk(all: seq<Entry>, r: Range, unique: bool)
    requires EntriesOk(all, r, unique)
    ensures KeysOk(Seps(all), r, unique)
  {
  }

  lemma BranchPieceContent(p: Page, all: seq<Entry>, cuts: seq<nat>, es: seq<Entry>, before: Key, r: Range,
      unique: bool, level: nat, j: nat)
    requires EntriesOk(all, r, unique) && PieceSeps(Seps(all), cuts, es, before) && level > 0
    requires j < |cuts| && BranchPiece(p, level, all, cuts, j)
    ensures ContentOk(p, ChildRange(es, r, j), unique)
  {
    hide ChildRange, EntriesOk, ELens, Part;
    var a, d := Start(cuts, j), cuts[j];
    BranchKeysOk(all, r, unique);
    assert Start(cuts, j) < cuts[j] <= |all|;
    forall m | a <= m < d ensures In(all[m].sep, ChildRange(es, r, j)) {
      PieceIn(Seps(all), cuts, es, before, r, unique, j, m);
    }
    PieceEnd(all, cuts, es, before, r, unique, j);
    EntriesSlice(all, r, unique, a, d, ChildRange(es, r, j));
    PieceComm(all, a, d);
  }

  lemma PieceComm(all: seq<Entry>, a: nat, d: nat)
    requires a <= d <= |all|
    ensures Sum(ELens(all[a..d])) == Part(ELens(all), a, d)
  {
    SumSlice(ELens(all), a, d);
    assert ELens(all[a..d]) == ELens(all)[a..d];
  }

  /** The last entry of a piece is the one its parent holds for it. */
  lemma PieceEnd(all: seq<Entry>, cuts: seq<nat>, es: seq<Entry>, before: Key, r: Range, unique: bool, j: nat)
    requires EntriesOk(all, r, unique) && PieceSeps(Seps(all), cuts, es, before) && j < |cuts| &&
        Start(cuts, j) < cuts[j] <= |all|
    ensures ChildRange(es, r, j).hi.Fin? ==> all[cuts[j] - 1].sep == ChildRange(es, r, j).hi.k
  {
  }

  lemma EntriesSlice(all: seq<Entry>, r: Range, unique: bool, a: nat, d: nat, r': Range)
    requires EntriesOk(all, r, unique) && a < d <= |all| && (forall m :: a <= m < d ==> In(all[m].sep, r'))
    requires r'.hi.Fin? ==> all[d - 1].sep == r'.hi.k
    ensures EntriesOk(all[a..d], r', unique)
  {
    hide In, EntryFit;
    assert forall m :: 0 <= m < d - a ==> all[a..d][m] == all[a + m];
  }

  /** A child keeps its range when its parent is cut. */
  lemma PieceChildRange(all: seq<Entry>, cuts: seq<nat>, es: seq<Entry>, before: Key, r: Range, j: nat, m: nat)
    requires PieceSeps(Seps(all), cuts, es, before) && j < |cuts|
    requires Start(cuts, j) <= m < cuts[j]
    ensures Start(cuts, j) < cuts[j] <= |all|
    ensures ChildRange(all[Start(cuts, j)..cuts[j]], ChildRange(es, r, j), m - Start(cuts, j)) == ChildRange(all, r, m)
  {
    var a, d := Start(cuts, j), cuts[j];
    assert a < d <= |all|;
    if j > 0 { CutOrder(cuts, |all|, j - 1, j); }
    if j < |cuts| - 1 { CutOrder(cuts, |all|, j, |cuts| - 1); }
  }

  /** The children of the pieces point at the page that now holds their entry. */
  ghost predicate Rehomed(t: Tree, t': Tree, ids: seq<PageId>, cuts: seq<nat>, all: seq<Entry>) {
    && |ids| == |cuts|
    && (forall j, m :: 0 <= j < |ids| && Start(cuts, j) <= m < cuts[j] && m < |all| ==>
          all[m].child in t'.pages && t'.pages[all[m].child].parent == Some(ids[j]))
  }

  lemma BranchPieceKids(t: Tree, b: Bounds, t': Tree, b': Bounds, q: PageId, i: nat, ids: seq<PageId>, es: seq<Entry>,
                        cuts: seq<nat>, before: Key, j: nat)
    requires Inv(t, b) && Replaced(t, t', q, i, ids, es) && Rebounded(b, b', ids, es)
    requires IsBranch(t, ids[0]) && PieceSeps(Seps(t.pages[ids[0]].entries), cuts, es, before)
    requires Rehomed(t, t', ids, cuts, t.pages[ids[0]].entries)
    requires |ids| == |cuts| && j < |ids| && BranchPiece(t'.pages[ids[j]], t.pages[ids[0]].level,
        t.pages[ids[0]].entries, cuts, j)
    ensures KidsOk(t', b', ids[j])
  {
    hide ContentOk, EntriesOk, ChildRange, Splice, ELens, PieceSeps, Inv, Rehomed;
    var all := t.pages[ids[0]].entries;
    forall k | 0 <= k < |t'.pages[ids[j]].entries| ensures KidOk(t', b', ids[j], k) {
      var m := Start(cuts, j) + k;
      PieceChildRange(all, cuts, es, before, b[ids[0]], j, m);
      GrandchildStays(t, b, t', q, i, ids, es, cuts, j, m);
    }
  }

  lemma GrandchildStays(t: Tree, b: Bounds, t': Tree, q: PageId, i: nat, ids: seq<PageId>, es: seq<Entry>,
                        cuts: seq<nat>, j: nat, m: nat)
    requires Inv(t, b) && Replaced(t, t', q, i, ids, es) && IsBranch(t, ids[0])
    requires Rehomed(t, t', ids, cuts, t.pages[ids[0]].entries)
    requires j < |ids| && Start(cuts, j) <= m < cuts[j] && m < |t.pages[ids[0]].entries|
    ensures KidOk(t, b, ids[0], m)
    ensures var c := t.pages[ids[0]].entries[m].child;
      c !in ids && c in t'.pages && t'.pages[c].parent == Some(ids[j]) && Level(t'.pages[c]) == Level(t.pages[c])
  {
    hide ContentOk, EntriesOk, ChildRange, Splice, ELens;
    Kid(t, b, ids[0], m);
    var c := t.pages[ids[0]].entries[m].child;
    assert c !in ids && c != q by {
      Kid(t, b, q, i);
    }
    assert Moved(t, t', ids, c);
  }
}
