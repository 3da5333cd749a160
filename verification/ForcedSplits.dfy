/** What a split of one page reaches: a new root, its siblings, and the forced split of its parent
    (src/core/LeafPage.cpp:423-663, src/core/BranchPage.cpp:233-408). */
module ForcedSplits {
  import opened KeyOrder
  import opened GreedySplit
  import opened PageIds
  import opened Pages
  import opened LeafCuts
  import opened TreeInv
  import opened TreeSplit
  import opened TreePieces
  import opened LeafChain
  import opened SplitBuild
  import opened SplitSound
  import opened SettleOrder
  import opened TreeState

  // ---------- a page and its parent before the split ----------

  /** The tree a split starts from: the tree as it is, or with a new root above p. */
  ghost predicate Raised(t: Tree, u: Tree, p: PageId, q: PageId, e: Entry) {
    && p in t.pages && t.root in t.pages
    && if t.pages[p].parent.Some? then u == t && t.pages[p].parent == Some(q)
       else p == t.root && q !in t.pages && e.child == p && u == Grow(t, q, e)
  }

  lemma NewRootHolds(t: Tree, q: PageId, e: Entry)
    requires t.root in t.pages && q !in t.pages
    ensures IsBranch(Grow(t, q, e), q) && Grow(t, q, e).pages[q].entries == [e]
  {
  }

  lemma RaisedPage(t: Tree, u: Tree, p: PageId, q: PageId, e: Entry)
    requires Raised(t, u, p, q, e)
    ensures p in t.pages && (t.pages[p].parent.Some? ==> t.pages[p].parent == Some(q))
    ensures p in u.pages && Core(u.pages[p]) == Core(t.pages[p])
    ensures u.pages[p].Branch? == t.pages[p].Branch? && u.pages[p].comm == t.pages[p].comm
    ensures u.pages[p].Branch? ==> u.pages[p].entries == t.pages[p].entries && u.pages[p].level == t.pages[p].level
    ensures u.pages[p].Leaf? ==> u.pages[p].recs == t.pages[p].recs && u.pages[p].temp == t.pages[p].temp
  {
  }

  lemma RaisedEffect(t: Tree, b: Bounds, u: Tree, p: PageId, q: PageId, e: Entry, v: Tree)
    requires Inv(t, b) && Raised(t, u, p, q, e) && Effect(u, v, p)
    ensures Effect(t, v, p)
  {
    hide Effect, Grow, ContentOk;
    forall x | x in t.pages ensures Level(t.pages[x]) <= Level(t.pages[t.root]) {
      assert PageOk(t, b, x);
    }
    if t.pages[p].parent.None? {
      EffectAfterGrow(t, q, e, v, p);
    }
  }

  lemma RaisedQueued(t: Tree, u: Tree, p: PageId, q: PageId, e: Entry, v: Tree, queue': set<PageId>)
    requires Raised(t, u, p, q, e) && Queued(u, v, queue') && p in queue' && q in queue'
    ensures Queued(t, v, queue')
  {
    forall x | x in v.pages && x !in queue' ensures x in t.pages && v.pages[x] == t.pages[x] {
      assert v.pages[x] == u.pages[x];
    }
  }

  ghost function LevelsAbove(t: Tree, p: PageId): nat {
    if t.root in t.pages && p in t.pages && Level(t.pages[p]) <= Level(t.pages[t.root])
    then Level(t.pages[t.root]) - Level(t.pages[p]) else 0
  }

  /** A forced split of the parent is one level nearer to the root. */
  lemma OneLevelUp(t: Tree, b: Bounds, v: Tree, b': Bounds, p: PageId, q: PageId)
    requires Inv(t, b) && Inv(v, b') && Effect(t, v, p) && t.root == v.root
    requires t.pages[p].parent == Some(q)
    ensures IsBranch(v, q) && Level(v.pages[q]) > Level(t.pages[p])
    ensures LevelsAbove(v, q) < LevelsAbove(t, p)
  {
    hide ContentOk;
    assert PageOk(t, b, p);
    var q', i := Up(t, b, p);
    assert OldOk(t, v, p, q) && OldOk(t, v, p, t.root);
    assert PageOk(t, b, q) && PageOk(v, b', q);
  }

  // ---------- the pages of a leaf split ----------

  /** Page p and its siblings hold the greedy chunks of the records. */
  ghost predicate Cut(t: Tree, p: PageId, live: seq<Rec>, ids: seq<PageId>, cuts: seq<nat>) {
    && |ids| > 0 && ids[0] == p && LeafPieces(t, ids, live, cuts)
    && Greedy(CLens(live), TLens(live), cuts, LEAF_LIMITS)
  }

  /** Leaf p has been split: it and the only new leaves hold the greedy chunks of the records that stay. */
  ghost predicate SplitApart(t: Tree, t': Tree, p: PageId, ids: seq<PageId>, cuts: seq<nat>) {
    && p in t.pages && t.pages[p].Leaf? && Effect(t, t', p)
    && Cut(t', p, Live(t.pages[p].recs), ids, cuts)
    && (forall j :: 1 <= j < |ids| ==> ids[j] !in t.pages)
    && (forall x :: x in t'.pages && x !in t.pages && t'.pages[x].Leaf? ==> x in ids)
  }

  /** The parent the page had is not past the threshold after the split, or as it was if the page is not `cut`. */
  ghost predicate ParentShort(t: Tree, t': Tree, p: PageId, cut: bool) {
    p in t.pages && t.pages[p].parent.Some? ==>
      var q := t.pages[p].parent.value;
      && q in t.pages && q in t'.pages
      && if cut then !NeedForceSplit(t'.pages[q]) else Core(t'.pages[q]) == Core(t.pages[q])
  }

  lemma ApartDivided(t: Tree, u: Tree, v: Tree, b: Bounds, p: PageId, q: PageId, e: Entry, ids: seq<PageId>,
      cuts: seq<nat>)
    requires Raised(t, u, p, q, e) && Beside(u, v, q, ids) && Effect(t, v, p) && Inv(v, b) && IsBranch(v, q)
    requires t.pages[p].Leaf? && Cut(v, p, Live(t.pages[p].recs), ids, cuts)
    ensures SplitApart(t, v, p, ids, cuts)
  {
    hide Cut, Effect, Inv;
    assert forall x :: x in u.pages && x !in t.pages ==> x == q;
  }

  lemma ApartThen(t: Tree, v: Tree, w: Tree, b: Bounds, p: PageId, q: PageId, ids: seq<PageId>, cuts: seq<nat>)
    requires SplitApart(t, v, p, ids, cuts) && Effect(v, w, q) && Inv(w, b)
    requires Level(v.pages[q]) > Level(t.pages[p])
    ensures SplitApart(t, w, p, ids, cuts)
  {
    EffectThen(t, v, w, p, q);
    LeafPiecesKept(v, w, q, ids, Live(t.pages[p].recs), cuts);
    hide LeafPieces, Inv, Greedy, Fits, FreshPage, WeighedPage, Live;
    forall x | x in w.pages && x !in t.pages && w.pages[x].Leaf? ensures x in ids {
      LevelKind(w, b, x);
      if x in v.pages {
        assert OldOk(v, w, q, x);
        if x != q { SameCore(v.pages[x], w.pages[x]); }
      } else {
        NewIsHigher(v, w, q, x);
      }
    }
  }

  lemma NewIsHigher(v: Tree, w: Tree, q: PageId, x: PageId)
    requires Effect(v, w, q) && x in w.pages && x !in v.pages
    ensures Level(w.pages[x]) >= Level(v.pages[q])
  {
    assert NewOk(v, w, q, x);
  }

  /** A page that is split is short afterwards. */
  lemma SplitIsShort(t: Tree, t': Tree, p: PageId)
    requires Effect(t, t', p)
    ensures p in t'.pages && !NeedForceSplit(t'.pages[p])
  {
    assert OldOk(t, t', p, p) && NewOk(t, t', p, p);
  }

  lemma CutNow(v: Tree, p: PageId, live: seq<Rec>, ids: seq<PageId>, cuts: seq<nat>)
    requires |ids| > 0 && ids[0] == p && LeafPieces(v, ids, live, cuts)
    requires Greedy(CLens(live), TLens(live), cuts, LEAF_LIMITS)
    ensures Cut(v, p, live, ids, cuts)
  {
  }

  lemma ApartEffect(t: Tree, t': Tree, p: PageId, ids: seq<PageId>, cuts: seq<nat>)
    requires SplitApart(t, t', p, ids, cuts)
    ensures Effect(t, t', p)
  {
  }

  /** The root after the pieces are in place, and what the parent is in both trees. */
  lemma DividedRoot(t: Tree, u: Tree, v: Tree, p: PageId, q: PageId, e: Entry, ids: seq<PageId>)
    requires Raised(t, u, p, q, e) && Beside(u, v, q, ids)
    ensures v.root == u.root && q in v.pages && (IsBranch(u, q) ==> IsBranch(v, q)) &&
        (t.pages[p].parent.None? ==> q == v.root)
  {
  }

  /** The parent after all. */
  lemma ParentNow(t: Tree, b: Bounds, u: Tree, w: Tree, p: PageId, q: PageId, e: Entry)
    requires Inv(t, b) && Raised(t, u, p, q, e)
    ensures t.pages[p].parent.Some? ==> q in t.pages && u == t
    ensures t.pages[p].parent.Some? && q in w.pages && !NeedForceSplit(w.pages[q]) ==> ParentShort(t, w, p, true)
    ensures t.pages[p].parent.Some? && q in w.pages && w.pages[q] == t.pages[q] ==> ParentShort(t, w, p, false)
    ensures t.pages[p].parent.None? ==> ParentShort(t, w, p, true) && ParentShort(t, w, p, false)
  {
    hide ContentOk;
    assert PageOk(t, b, p);
  }

  lemma LowUncut(t: Tree, u: Tree, v: Tree, p: PageId, q: PageId, e: Entry, ids: seq<PageId>)
    requires Raised(t, u, p, q, e) && Beside(u, v, q, ids) && ids[0] == p && Effect(u, v, p)
    requires t.pages[p].parent.Some? && Low(t) && v.pages[q] == u.pages[q] && LowBut(v, q)
    ensures Low(v)
  {
    forall x | x in v.pages && v.pages[x].Branch? && x != v.root ensures !NeedForceSplit(v.pages[x]) {
      if x == q { assert v.pages[x] == t.pages[x]; }
    }
  }

  /** What is left to do when the pieces of a leaf are in place: the parent it had may be past the threshold. */
  lemma LeafDivided(t: Tree, b: Bounds, u: Tree, v: Tree, b': Bounds, p: PageId, q: PageId, e: Entry, ids: seq<PageId>,
      cuts: seq<nat>, queue': set<PageId>)
    requires Inv(t, b) && Inv(v, b') && Raised(t, u, p, q, e) && Effect(u, v, p) && Beside(u, v, q, ids)
    requires Queued(u, v, queue') && p in queue' && q in queue' && IsBranch(u, q) && t.pages[p].Leaf?
    requires |ids| > 0 && ids[0] == p && LeafPieces(v, ids, Live(t.pages[p].recs), cuts)
    requires Greedy(CLens(Live(t.pages[p].recs)), TLens(Live(t.pages[p].recs)), cuts, LEAF_LIMITS)
    requires t.pages[p].parent.Some? && |cuts| == 1 ==> q in v.pages && q in u.pages && v.pages[q] == u.pages[q]
    ensures Effect(t, v, p) && SplitApart(t, v, p, ids, cuts) && Queued(t, v, queue') && IsBranch(v, q)
    ensures t.pages[p].parent.None? ==> q == v.root
    ensures Low(t) ==> LowBut(v, q) && (q == v.root || !NeedForceSplit(v.pages[q]) ==> Low(v))
    ensures Low(t) && t.pages[p].parent.Some? && |cuts| == 1 ==> Low(v)
  {
    hide Inv, Raised, Effect, Beside, Queued, LeafPieces, Greedy, Live, Low, LowBut, SplitApart, CLens, TLens;
    RaisedPage(t, u, p, q, e);
    RaisedEffect(t, b, u, p, q, e, v);
    RaisedQueued(t, u, p, q, e, v, queue');
    CutNow(v, p, Live(t.pages[p].recs), ids, cuts);
    DividedRoot(t, u, v, p, q, e, ids);
    ApartDivided(t, u, v, b', p, q, e, ids, cuts);
    if Low(t) {
      LowIsLowBut(t, p);
      LowRaised(t, u, p, q, e);
      LowDivided(u, v, p, q, ids);
      if t.pages[p].parent.Some? && |cuts| == 1 { LowUncut(t, u, v, p, q, e, ids); }
    }
  }

  /** Likewise for the pieces of a branch page. */
  lemma BranchDivided(t: Tree, u: Tree, v: Tree, p: PageId, q: PageId, e: Entry, ids: seq<PageId>,
      queue': set<PageId>)
    requires Raised(t, u, p, q, e) && Effect(u, v, p) && Beside(u, v, q, ids) && |ids| > 0 && ids[0] == p
    requires Queued(u, v, queue') && p in queue' && q in queue'
    ensures Queued(t, v, queue') && v.root == u.root && q in v.pages && (t.pages[p].parent.None? ==> q == v.root)
    ensures LowBut(t, p) ==> LowBut(v, q) && (q == v.root || !NeedForceSplit(v.pages[q]) ==> Low(v))
  {
    hide Raised, Effect, Beside, Queued, Low, LowBut;
    RaisedQueued(t, u, p, q, e, v, queue');
    DividedRoot(t, u, v, p, q, e, ids);
    if LowBut(t, p) {
      LowRaised(t, u, p, q, e);
      LowDivided(u, v, p, q, ids);
    }
  }

  /** A leaf has been split, and its parent too if it passed the threshold. */
  ghost predicate SplitUp(t: Tree, t': Tree, p: PageId) {
    exists ids, cuts {:trigger SplitApart(t, t', p, ids, cuts)} ::
      SplitApart(t, t', p, ids, cuts) && ParentShort(t, t', p, |cuts| > 1)
  }

  /** After the split no leaf is past the threshold that was not before. */
  lemma ApartShort(t: Tree, b: Bounds, t': Tree, b': Bounds, p: PageId, ids: seq<PageId>, cuts: seq<nat>, x: PageId)
    requires Inv(t, b) && Inv(t', b') && SplitApart(t, t', p, ids, cuts) && x in t'.pages && t'.pages[x].Leaf?
    ensures x in t.pages && x != p ==> Core(t'.pages[x]) == Core(t.pages[x])
    ensures x !in t.pages || x == p ==> !NeedForceSplit(t'.pages[x])
  {
    hide Inv, Cut, Live;
    LevelKind(t', b', x);
    if x in t.pages && x != p {
      assert OldOk(t, t', p, x);
    } else {
      assert NewOk(t, t', p, x);
    }
  }

  // ---------- no branch page below the root stays past the threshold ----------

  ghost predicate LowBut(t: Tree, p: PageId) {
    forall x {:trigger t.pages[x]} :: x in t.pages && t.pages[x].Branch? && x != t.root && x != p ==>
      !NeedForceSplit(t.pages[x])
  }

  ghost predicate Low(t: Tree) {
    forall x {:trigger t.pages[x]} :: x in t.pages && t.pages[x].Branch? && x != t.root ==> !NeedForceSplit(t.pages[x])
  }

  lemma LowRaised(t: Tree, u: Tree, p: PageId, q: PageId, e: Entry)
    requires Raised(t, u, p, q, e) && LowBut(t, p)
    ensures LowBut(u, p)
  {
    forall x | x in u.pages && u.pages[x].Branch? && x != u.root && x != p ensures !NeedForceSplit(u.pages[x]) {
      assert x in t.pages;
    }
  }

  /** The pieces of a split are short, so at most the parent is not. */
  lemma LowDivided(u: Tree, v: Tree, p: PageId, q: PageId, ids: seq<PageId>)
    requires Beside(u, v, q, ids) && ids[0] == p && Effect(u, v, p) && LowBut(u, p)
    ensures LowBut(v, q)
    ensures q == v.root || !NeedForceSplit(v.pages[q]) ==> Low(v)
  {
    hide Items, FreshPage, WeighedPage;
    forall x | x in v.pages && v.pages[x].Branch? && x != v.root && x != q ensures !NeedForceSplit(v.pages[x]) {
      if x == p || x !in u.pages {
        assert NewOk(u, v, p, x);
        assert x in ids;
        assert PieceOk(u.pages[p], v.pages[x]);
      } else {
        assert Core(v.pages[x]) == Core(u.pages[x]);
      }
    }
  }

  lemma LowIsLowBut(t: Tree, p: PageId)
    requires Low(t)
    ensures LowBut(t, p)
  {
  }

  /** Changes of leaves only. */
  ghost predicate SameBranches(t: Tree, t': Tree) {
    && t'.root == t.root && t'.unique == t.unique && t'.pages.Keys == t.pages.Keys
    && forall x {:trigger t'.pages[x]} :: x in t'.pages ==>
         t'.pages[x].Branch? == t.pages[x].Branch? && (t.pages[x].Branch? ==> t'.pages[x] == t.pages[x])
  }

  lemma SameBranchesThen(t: Tree, u: Tree, v: Tree)
    requires SameBranches(t, u) && SameBranches(u, v)
    ensures SameBranches(t, v)
  {
    forall x | x in v.pages
      ensures v.pages[x].Branch? == t.pages[x].Branch? && (t.pages[x].Branch? ==> v.pages[x] == t.pages[x])
    {
      assert u.pages[x].Branch? == v.pages[x].Branch?;
    }
  }

  lemma OneLeafChanged(t: Tree, p: PageId, page: Page)
    requires p in t.pages && t.pages[p].Leaf? && page.Leaf?
    ensures SameBranches(t, Tree(t.pages[p := page], t.root, t.unique)) && SameBranches(t, t)
  {
  }

  lemma SameBranchesLow(t: Tree, t': Tree)
    requires SameBranches(t, t') && Low(t)
    ensures Low(t')
  {
    forall x | x in t'.pages && t'.pages[x].Branch? && x != t'.root ensures !NeedForceSplit(t'.pages[x]) {
      assert t.pages[x].Branch?;
    }
  }
}
