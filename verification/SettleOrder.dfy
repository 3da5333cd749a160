/** Why one ascending pass over the write queue settles the tree (src/core/IndexTree.cpp:422-431,
    src/core/CachePage.h:140-146).

    The queue is ordered by level, then by page id.  A split at level l changes pages of level l only by
    handing parts of the split page to it and to new pages, and leaves the levels below alone. */
module SettleOrder {
  import opened KeyOrder
  import opened GreedySplit
  import opened PageIds
  import opened Pages
  import opened LeafCuts
  import opened TreeInv
  import opened TreeSplit
  import opened TreePieces
  import opened LeafChain
  import opened SplitBuild
  import opened SplitSound

  // ---------- page lengths ----------

  function MaxLen(p: Page): nat {
    if p.Leaf? then MAX_LEAF else MAX_BRANCH
  }

  /** LeafPage::IsOverlength and BranchPage::IsOverlength. */
  predicate IsOverlength(p: Page) {
    p.comm >= MaxLen(p) || (p.Leaf? && p.temp >= MaxLen(p))
  }

  predicate Fits(p: Page) {
    p.comm <= MaxLen(p) && (p.Leaf? ==> p.temp <= MaxLen(p))
  }

  predicate AtLimit(p: Page) {
    p.comm == MaxLen(p) || (p.Leaf? && p.temp == MaxLen(p))
  }

  /** A page that fits still counts as overlong exactly when a length equals the limit; the assertions after the
      settling pass (src/core/IndexTree.cpp:444 and 462) do not hold for it. */
  lemma FullIsOverlong(p: Page)
    requires Fits(p)
    ensures IsOverlength(p) <==> AtLimit(p)
  {
  }

  /** Both kinds of split produce such pages: a chunk whose last entry fills the page to the byte. */
  lemma FullChunks()
    ensures var s := [8180, 8180, 100];
      Greedy(s, s, [2, 3], LEAF_LIMITS) && Part(s, Start([2, 3], 0), 2) == MAX_LEAF
    ensures var s := [7000, 7000, 2368, 100];
      Greedy(s, s, [3, 4], BRANCH_LIMITS) && Part(s, Start([3, 4], 0), 3) == MAX_BRANCH && forall i :: 0 <= i < |s| ==>
          s[i] <= MAX_ENTRY
  {
    var s, b: seq<nat> := [8180, 8180, 100], [7000, 7000, 2368, 100];
    assert Part(s, 0, 1) == Part(s, 0, 0) + 8180 && Part(s, 0, 2) == Part(s, 0, 1) + 8180;
    assert Part(s, 2, 2) == 0 && Part(s, 2, 3) == Part(s, 2, 2) + 100;
    assert Start([2, 3], 0) == 0 && Start([2, 3], 1) == 2 && Start([3, 4], 0) == 0 && Start([3, 4], 1) == 3;
    assert Part(b, 0, 1) == Part(b, 0, 0) + 7000 && Part(b, 0, 2) == Part(b, 0, 1) + 7000 &&
        Part(b, 0, 3) == Part(b, 0, 2) + 2368;
    assert Part(b, 3, 3) == 0 && Part(b, 3, 4) == Part(b, 3, 3) + 100;
  }

  /** IndexPage::NeedForceSplit. */
  predicate NeedForceSplit(p: Page) {
    p.comm > LOAD_THRESHOLD || (p.Leaf? && p.temp > LOAD_THRESHOLD)
  }

  /** The keys of the records of a page. */
  function Items(p: Page): (r: set<Key>) {
    if p.Leaf? then set x | x in p.recs :: x.key else set x | x in p.entries :: x.sep
  }

  /** A split of this leaf goes wrong.  Without a record that stays it reads the first of no lengths
      (src/core/LeafPage.cpp:523); and it searches its parent for the last record, bytes or not (lines 438-440). */
  predicate Stuck(p: Page) {
    p.Leaf? && (Live(p.recs) == [] || (p.parent.Some? && |p.recs| > 0 && NoBytes(p.recs[|p.recs| - 1])))
  }

  /** A leaf as a split leaves it: every record stays and none is due. */
  predicate FreshPage(p: Page) {
    p.Leaf? ==> AllLive(p.recs) && p.recs != []
  }

  /** The recorded lengths of a leaf cover what its records are charged; `lean`: the committed length exactly. */
  predicate WeighedPage(p: Page, lean: bool) {
    p.Leaf? ==>
      && Sum(Comms(p.recs)) <= p.comm && Sum(Temps(p.recs)) <= p.temp
      && (lean ==> p.comm == Sum(Comms(p.recs)))
  }

  // ---------- the effect of a split ----------

  /** What a split may hand to page x when it splits a page that looked like `top`. */
  ghost predicate PieceOk(top: Page, x: Page) {
    Fits(x) && Items(x) <= Items(top) && FreshPage(x) && WeighedPage(x, true)
  }

  ghost predicate OldOk(t: Tree, t': Tree, p: PageId, x: PageId)
    requires p in t.pages && x in t.pages
  {
    && x in t'.pages && Level(t'.pages[x]) == Level(t.pages[x])
    && (Level(t.pages[x]) <= Level(t.pages[p]) && x != p ==> Core(t'.pages[x]) == Core(t.pages[x]))
  }

  ghost predicate NewOk(t: Tree, t': Tree, p: PageId, x: PageId)
    requires p in t.pages && x in t'.pages
  {
    && Level(t'.pages[x]) >= Level(t.pages[p])
    && (Level(t'.pages[x]) == Level(t.pages[p]) ==> PieceOk(t.pages[p], t'.pages[x]))
  }

  ghost predicate Effect(t: Tree, t': Tree, p: PageId) {
    && p in t.pages && p in t'.pages
    && (forall x {:trigger OldOk(t, t', p, x)} :: x in t.pages ==> OldOk(t, t', p, x))
    && (forall x {:trigger NewOk(t, t', p, x)} :: x in t'.pages && (x == p || x !in t.pages) ==> NewOk(t, t', p, x))
    && Count(t'.pages[p]) >= (if t'.pages[p].Branch? then 2 else 1)
  }

  lemma LeafEffect(t: Tree, b: Bounds, m': PageTable, q: PageId, i: nat, ids: seq<PageId>, es: seq<Entry>,
                   live: seq<Rec>, cuts: seq<nat>, clens: seq<int>, tlens: seq<int>)
    requires Inv(t, b) && LeafSplitOf(t, m', q, i, ids, es, live, cuts, clens, tlens)
    requires GreedyCut(live, cuts, clens, tlens, LEAF_LIMITS) && live == Live(t.pages[ids[0]].recs) && |live| > 0
    ensures Effect(t, Tree(m', t.root, t.unique), ids[0])
  {
    hide LeafSplitOf, ContentOk, ChildRange, Inv, CLens, TLens, GreedyCut, Greedy, PieceOk, Live;
    LeafSplitIds(t, m', q, i, ids, es, live, cuts, clens, tlens);
    var t', p := Tree(m', t.root, t.unique), ids[0];
    assert ChunkLengths(CLens(live), cuts, clens) && ChunkLengths(TLens(live), cuts,
        tlens) by { CutLengths(live, cuts, clens, tlens, LEAF_LIMITS); }
    LeafReplaced(t, b, m', q, i, ids, es, live, cuts, clens, tlens);
    ParentLevel(t, b, q, i);
    LeafSplitChild(t, m', q, i, ids, es, live, cuts, clens, tlens);
    forall x | x in t.pages ensures OldOk(t, t', p, x) {
      ReplacedOld(t, t', q, i, ids, es, x);
    }
    LiveFits(t, b, p);
    forall j | 0 <= j < |ids| ensures PieceOk(t.pages[p], m'[ids[j]]) && m'[ids[j]].Leaf? && Count(m'[ids[j]]) >= 1 {
      LeafPieceAt(t, b, m', q, i, ids, es, live, cuts, clens, tlens, j);
      LeafPieceOk(t.pages[p], m'[ids[j]], live, cuts, clens, tlens, j);
    }
    ReplacedNew(t, t', q, i, ids, es);
    forall x | x in t'.pages && (x == p || x !in t.pages) ensures NewOk(t, t', p, x) {
      var j :| 0 <= j < |ids| && ids[j] == x;
    }
  }

  lemma LiveFits(t: Tree, b: Bounds, p: PageId)
    requires Inv(t, b) && p in t.pages && t.pages[p].Leaf?
    ensures AllFit(Live(t.pages[p].recs), MAX_LEAF)
  {
    LiveInRange(t, b, p);
  }

  lemma CutLengths(s: seq<Rec>, cuts: seq<nat>, clens: seq<int>, tlens: seq<int>, l: Limits)
    requires GreedyCut(s, cuts, clens, tlens, l)
    ensures ChunkLengths(CLens(s), cuts, clens) && ChunkLengths(TLens(s), cuts, tlens)
    ensures Greedy(CLens(s), TLens(s), cuts, l)
  {
  }

  lemma LeafSplitChild(t: Tree, m': PageTable, q: PageId, i: nat, ids: seq<PageId>, es: seq<Entry>,
                       live: seq<Rec>, cuts: seq<nat>, clens: seq<int>, tlens: seq<int>)
    requires LeafSplitOf(t, m', q, i, ids, es, live, cuts, clens, tlens)
    ensures IsBranch(t, q) && i < |t.pages[q].entries| && t.pages[q].entries[i].child == ids[0]
  {
  }

  lemma ParentLevel(t: Tree, b: Bounds, q: PageId, i: nat)
    requires Inv(t, b) && IsBranch(t, q) && i < |t.pages[q].entries|
    ensures t.pages[q].entries[i].child in t.pages
    ensures Level(t.pages[t.pages[q].entries[i].child]) + 1 == t.pages[q].level
  {
    hide ContentOk;
    Kid(t, b, q, i);
  }

  lemma ReplacedOld(t: Tree, t': Tree, q: PageId, i: nat, ids: seq<PageId>, es: seq<Entry>, x: PageId)
    requires Replaced(t, t', q, i, ids, es) && x in t.pages
    requires Level(t.pages[ids[0]]) + 1 == t.pages[q].level
    ensures OldOk(t, t', ids[0], x)
  {
    hide Splice, ELens;
    if x in ids {
      var j :| 0 <= j < |ids| && ids[j] == x;
      assert j == 0;
      assert t'.pages[ids[j]].parent == Some(q);
    } else if x != q {
      assert Moved(t, t', ids, x);
    }
  }

  lemma ReplacedNew(t: Tree, t': Tree, q: PageId, i: nat, ids: seq<PageId>, es: seq<Entry>)
    requires Replaced(t, t', q, i, ids, es)
    ensures forall x :: x in t'.pages && (x == ids[0] || x !in t.pages) ==> x in ids
  {
    hide Splice, ELens, Moved;
  }

  lemma LeafPieceOk(top: Page, x: Page, live: seq<Rec>, cuts: seq<nat>, clens: seq<int>, tlens: seq<int>, j: nat)
    requires GreedyCut(live, cuts, clens, tlens, LEAF_LIMITS) && top.Leaf? && live == Live(top.recs) && |live| > 0
    requires AllFit(live, MAX_LEAF)
    requires j < |cuts| && LeafPiece(x, live, cuts, j)
    ensures PieceOk(top, x) && x.Leaf? && |x.recs| > 0
  {
    hide CLens, TLens, Part;
    ChunkAt(CLens(live), TLens(live), cuts, LEAF_LIMITS, j);
    assert Start(cuts, j) < cuts[j] <= |live|;
    LeafPieceSums(x.recs, live, Start(cuts, j), cuts[j]);
    forall y | y in x.recs ensures y in live && !y.gone && y == AfterRelease(y) && y.key in Items(top) {
      LiveHas(top.recs, y);
      var z :| z in top.recs && y == AfterRelease(z);
    }
    assert AllLive(x.recs);
    assert AllFit(x.recs, MAX_LEAF) by { forall i | 0 <= i < |x.recs| ensures RecFit(x.recs[i], MAX_LEAF) {
      assert x.recs[i] == live[Start(cuts, j) + i]; } }
    CountsCover(x.recs, |x.recs|);
  }

  lemma BranchEffect(t: Tree, b: Bounds, m': PageTable, q: PageId, i: nat, ids: seq<PageId>, es: seq<Entry>,
                     cuts: seq<nat>, lens: seq<int>)
    requires Inv(t, b) && BranchSplitOf(t, m', q, i, ids, es, cuts, lens)
    requires var s := ELens(t.pages[ids[0]].entries);
      Greedy(s, s, cuts, BRANCH_LIMITS) && ChunkLengths(s, cuts, lens)
    requires t.pages[ids[0]].comm >= MAX_BRANCH
    ensures Effect(t, Tree(m', t.root, t.unique), ids[0])
  {
    hide BranchSplitOf, ContentOk, ChildRange, Inv, ELens, Greedy, PieceOk, BranchPiece, EntriesOk;
    BranchSplitIds(t, m', q, i, ids, es, cuts, lens);
    var t', p, all := Tree(m', t.root, t.unique), ids[0], t.pages[ids[0]].entries;
    BranchReplaced(t, b, m', q, i, ids, es, cuts, lens);
    BranchSplitChild(t, m', q, i, ids, es, cuts, lens);
    ParentLevel(t, b, q, i);
    BranchContent(t, b, p);
    forall x | x in t.pages ensures OldOk(t, t', p, x) {
      ReplacedOld(t, t', q, i, ids, es, x);
    }
    forall j | 0 <= j < |ids| ensures PieceOk(t.pages[p], m'[ids[j]]) && Level(m'[ids[j]]) == t.pages[p].level {
      BranchPieceAt(t, m', q, i, ids, es, cuts, lens, j);
      BranchPieceOk(t.pages[p], m'[ids[j]], cuts, j);
    }
    ReplacedNew(t, t', q, i, ids, es);
    BranchPieceAt(t, m', q, i, ids, es, cuts, lens, 0);
    FirstHoldsTwo(t.pages[p], b[p], t.unique, m'[p], cuts);
  }

  lemma BranchSplitChild(t: Tree, m': PageTable, q: PageId, i: nat, ids: seq<PageId>, es: seq<Entry>,
                         cuts: seq<nat>, lens: seq<int>)
    requires BranchSplitOf(t, m', q, i, ids, es, cuts, lens)
    ensures IsBranch(t, q) && i < |t.pages[q].entries| && t.pages[q].entries[i].child == ids[0]
  {
  }

  lemma BranchPieceOk(top: Page, x: Page, cuts: seq<nat>, j: nat)
    requires top.Branch? && Greedy(ELens(top.entries), ELens(top.entries), cuts, BRANCH_LIMITS)
    requires j < |cuts| && BranchPiece(x, top.level, top.entries, cuts, j)
    ensures PieceOk(top, x) && Level(x) == top.level
  {
    hide ELens, Part;
    ChunkAt(ELens(top.entries), ELens(top.entries), cuts, BRANCH_LIMITS, j);
  }

  /** Each piece but the last holds two entries or more, and so does a page that is split into one piece. */
  lemma FirstHoldsTwo(top: Page, r: Range, unique: bool, x: Page, cuts: seq<nat>)
    requires top.Branch? && EntriesOk(top.entries, r, unique) && top.comm == Sum(ELens(top.entries)) >= MAX_BRANCH
    requires Greedy(ELens(top.entries), ELens(top.entries), cuts, BRANCH_LIMITS)
    requires |cuts| > 0 && BranchPiece(x, top.level, top.entries, cuts, 0)
    ensures |x.entries| >= 2
  {
    var s := ELens(top.entries);
    ChunkAt(s, s, cuts, BRANCH_LIMITS, 0);
    assert EachFits(s, s, MAX_ENTRY);
    if |cuts| > 1 {
      ClosedHoldsTwo(s, s, 0, cuts[0], BRANCH_LIMITS, MAX_ENTRY);
    }
  }

  /** An overlong branch page is not cut exactly when it is full to the byte and its last entry takes it past
      the load limit.  Then BranchPage.cpp:313-316, on the last page of a level, takes the last of no new
      pages to pass the end mark to; the model leaves the mark where it is. */
  lemma UncutIff(top: Page, cuts: seq<nat>)
    requires top.Branch? && |top.entries| > 0 && top.comm == Sum(ELens(top.entries)) && IsOverlength(top)
    requires Greedy(ELens(top.entries), ELens(top.entries), cuts, BRANCH_LIMITS)
    ensures |cuts| == 1 <==>
            top.comm == MAX_BRANCH && top.comm - top.entries[|top.entries| - 1].len <= BRANCH_LIMITS.limit
  {
    var s := ELens(top.entries);
    OneChunkIff(s, s, cuts, BRANCH_LIMITS);
    assert Part(s, 0, |s|) == Part(s, 0, |s| - 1) + s[|s| - 1];
  }

  /** Such a page exists. */
  lemma UncutExists(cuts: seq<nat>)
    requires var s := [3600, 3600, 3600, 3560, 2008]; Greedy(s, s, cuts, BRANCH_LIMITS)
    ensures var s := [3600, 3600, 3600, 3560, 2008];
      (forall i :: 0 <= i < |s| ==> s[i] <= MAX_ENTRY) && Sum(s) == MAX_BRANCH && |cuts| == 1
  {
    var s := [3600, 3600, 3600, 3560, 2008];
    assert Part(s, 0, 1) == 3600;
    assert Part(s, 0, 2) == 7200;
    assert Part(s, 0, 3) == 10800;
    assert Part(s, 0, 4) == 14360;
    assert Part(s, 0, 5) == 16368;
    OneChunkIff(s, s, cuts, BRANCH_LIMITS);
  }

  /** A leaf is cut into nothing exactly when no record stays; then LeafPage.cpp:523 reads the first of no
      lengths. */
  lemma NoPieceIff(s: seq<Rec>, cuts: seq<nat>, clens: seq<int>, tlens: seq<int>)
    requires GreedyCut(Live(s), cuts, clens, tlens, LEAF_LIMITS)
    ensures cuts == [] <==> forall x :: x in s ==> x.gone
  {
    hide Live;
    forall x | x in s && !x.gone ensures AfterRelease(x) in Live(s) { LiveHas(s, AfterRelease(x)); }
    if cuts != [] {
      CutLengths(Live(s), cuts, clens, tlens, LEAF_LIMITS);
      ChunkAt(CLens(Live(s)), TLens(Live(s)), cuts, LEAF_LIMITS, 0);
      assert Live(s)[0] in Live(s);
      LiveHas(s, Live(s)[0]);
    }
  }

  // ---------- effects together ----------

  /** Putting a new root above the tree does not add to the effect of the split that follows. */
  lemma EffectAfterGrow(t: Tree, q: PageId, e: Entry, t': Tree, p: PageId)
    requires t.root in t.pages && q !in t.pages && p in t.pages && Effect(Grow(t, q, e), t', p)
    requires forall x :: x in t.pages ==> Level(t.pages[x]) <= Level(t.pages[t.root])
    ensures Effect(t, t', p)
  {
    hide PieceOk;
    var g := Grow(t, q, e);
    assert Items(g.pages[p]) == Items(t.pages[p]);
    forall x | x in t.pages ensures OldOk(t, t', p, x) {
      assert OldOk(g, t', p, x);
    }
    forall x | x in t'.pages && (x == p || x !in t.pages) ensures NewOk(t, t', p, x) {
      if x == q {
        assert OldOk(g, t', p, q);
      } else {
        assert NewOk(g, t', p, x);
        PieceOfSame(g.pages[p], t.pages[p], t'.pages[x]);
      }
    }
  }

  lemma PieceOfSame(top: Page, top': Page, x: Page)
    requires Items(top) == Items(top')
    ensures PieceOk(top, x) == PieceOk(top', x)
  {
  }

  /** A forced split of the parent works one level up. */
  lemma EffectThen(t: Tree, u: Tree, v: Tree, p: PageId, q: PageId)
    requires Effect(t, u, p) && Effect(u, v, q) && Level(u.pages[q]) > Level(t.pages[p])
    ensures Effect(t, v, p)
  {
    hide PieceOk;
    assert OldOk(t, u, p, p) && OldOk(u, v, q, p);
    SameCore(u.pages[p], v.pages[p]);
    forall x | x in t.pages ensures OldOk(t, v, p, x) {
      assert OldOk(t, u, p, x) && OldOk(u, v, q, x);
    }
    forall x | x in v.pages && (x == p || x !in t.pages) ensures NewOk(t, v, p, x) {
      if x in u.pages {
        assert NewOk(t, u, p, x) && OldOk(u, v, q, x);
        if Level(v.pages[x]) == Level(t.pages[p]) {
          CorePiece(t.pages[p], u.pages[x], v.pages[x]);
        }
      } else {
        assert NewOk(u, v, q, x);
      }
    }
  }

  lemma SameCore(x: Page, y: Page)
    requires Core(x) == Core(y)
    ensures Fits(x) == Fits(y) && IsOverlength(x) == IsOverlength(y) && Items(x) == Items(y)
    ensures FreshPage(x) == FreshPage(y) && forall lean :: WeighedPage(x, lean) == WeighedPage(y, lean)
    ensures Count(x) == Count(y) && Level(x) == Level(y)
    ensures x.Branch? == y.Branch?
  {
  }

  lemma CorePiece(top: Page, x: Page, y: Page)
    requires Core(x) == Core(y)
    ensures PieceOk(top, x) == PieceOk(top, y)
  {
    SameCore(x, y);
  }

  // ---------- the size of the levels ----------

  ghost function At(t: Tree, l: nat): set<PageId> {
    set x | x in t.pages && Level(t.pages[x]) == l
  }

  /** Some page of the level holds two entries or more. */
  ghost predicate Wide(t: Tree, l: nat) {
    exists x {:trigger t.pages[x]} :: x in t.pages && Level(t.pages[x]) == l && Count(t.pages[x]) >= 2
  }

  /** An injection bounds the size of its source, strictly when it misses y. */
  lemma {:induction false} Injection(s: set<PageId>, f: map<PageId, PageId>, u: set<PageId>, y: PageId)
    requires forall x :: x in s ==> x in f && f[x] in u
    requires forall x, z :: x in s && z in s && f[x] == f[z] ==> x == z
    ensures |s| <= |u|
    ensures y in u && (forall x :: x in s ==> f[x] != y) ==> |s| < |u|
  {
    if s == {} {
      if y in u { assert |u - {y}| == |u| - 1; }
    } else {
      var x :| x in s;
      assert |s - {x}| == |s| - 1 && |u - {f[x]}| == |u| - 1;
      Injection(s - {x}, f, u - {f[x]}, y);
    }
  }

  ghost function FirstKids(t: Tree, l: nat): map<PageId, PageId> {
    map x | x in t.pages && Level(t.pages[x]) == l && t.pages[x].Branch? && |t.pages[x].entries| > 0 ::
      t.pages[x].entries[0].child
  }

  lemma FirstKidAt(t: Tree, b: Bounds, x: PageId)
    requires Inv(t, b) && IsBranch(t, x)
    ensures |t.pages[x].entries| > 0 && t.pages[x].level > 0
    ensures var c := t.pages[x].entries[0].child;
      c in t.pages && t.pages[c].parent == Some(x) && Level(t.pages[c]) + 1 == t.pages[x].level
  {
    assert PageOk(t, b, x);
    Kid(t, b, x, 0);
  }

  /** A level has no more pages than the level below, and fewer when one of its pages has two children. */
  lemma LevelShrinks(t: Tree, b: Bounds, l: nat)
    requires Inv(t, b) && l > 0
    ensures |At(t, l)| <= |At(t, l - 1)|
    ensures Wide(t, l) ==> |At(t, l)| < |At(t, l - 1)|
  {
    hide Inv;
    var f := FirstKids(t, l);
    forall x | x in At(t, l) ensures x in f && f[x] in At(t, l - 1) && t.pages[f[x]].parent == Some(x) {
      FirstKidAt(t, b, x);
    }
    var y: PageId := 0;
    if Wide(t, l) {
      var w :| w in t.pages && Level(t.pages[w]) == l && Count(t.pages[w]) >= 2;
      y := SecondKid(t, b, w);
    }
    Injection(At(t, l), f, At(t, l - 1), y);
  }

  lemma SecondKid(t: Tree, b: Bounds, w: PageId) returns (y: PageId)
    requires Inv(t, b) && IsBranch(t, w) && Count(t.pages[w]) >= 2
    ensures y in t.pages && t.pages[y].parent == Some(w) && Level(t.pages[y]) + 1 == t.pages[w].level
    ensures y != t.pages[w].entries[0].child
  {
    hide ContentOk;
    Kid(t, b, w, 1);
    y := t.pages[w].entries[1].child;
    if y == t.pages[w].entries[0].child { SameChildSameSlot(t, b, w, 0, 1); }
  }

  lemma {:induction false} LevelsShrink(t: Tree, b: Bounds, l: nat, m: nat)
    requires Inv(t, b) && l <= m
    ensures |At(t, m)| <= |At(t, l)|
    decreases m
  {
    if l < m {
      LevelsShrink(t, b, l, m - 1);
      LevelShrinks(t, b, m);
    }
  }

  // ---------- the walk over the queue ----------

  /** Page x comes after position (l, id) of the walk. */
  predicate After(t: Tree, l: nat, id: int, x: PageId)
    requires x in t.pages
  {
    Level(t.pages[x]) > l || (Level(t.pages[x]) == l && x > id)
  }

  /** The write queue is keyed by `(level << 32) + id`: with 32-bit ids that is the order of the walk. */
  lemma QueueKeyOrders(t: Tree, p: PageId, x: PageId)
    requires p in t.pages && x in t.pages && p < 0x1_0000_0000 && x < 0x1_0000_0000
    ensures After(t, Level(t.pages[p]), p, x)
            <==> Level(t.pages[x]) * 0x1_0000_0000 + x > Level(t.pages[p]) * 0x1_0000_0000 + p
  {
  }

  /** The items of the pages of level l still ahead of the walk. */
  ghost function AheadItems(t: Tree, l: nat, id: int): set<Key> {
    set x, k | x in t.pages && Level(t.pages[x]) == l && x > id && k in Items(t.pages[x]) :: k
  }

  ghost predicate SettledUpTo(t: Tree, l: nat, id: int) {
    forall x {:trigger t.pages[x]} :: x in t.pages && !After(t, l, id, x) ==>
      Fits(t.pages[x]) && !(IsOverlength(t.pages[x]) && Stuck(t.pages[x]))
  }

  /** With more than one page every leaf has a parent. */
  lemma LeafHasParent(t: Tree, b: Bounds, x: PageId, y: PageId)
    requires Inv(t, b) && x in t.pages && y in t.pages && x != y && t.pages[x].Leaf?
    ensures t.pages[x].parent.Some?
  {
    hide ContentOk;
    assert PageOk(t, b, x);
    if t.pages[x].parent.None? {
      var q, i := Up(t, b, y);
    }
  }

  lemma FreshNotStuck(x: Page)
    requires FreshPage(x)
    ensures !Stuck(x)
  {
    if x.Leaf? {
      LiveAll(x.recs);
      assert !x.recs[|x.recs| - 1].gone;
    }
  }

  lemma SameStuck(x: Page, y: Page)
    requires Core(x) == Core(y) && (x.Leaf? ==> x.parent.Some?)
    ensures Stuck(y) ==> Stuck(x)
  {
    hide Live;
  }

  /** A split at position p leaves everything up to p settled. */
  lemma SettledStep(t: Tree, b: Bounds, t': Tree, l: nat, p: PageId)
    requires Inv(t, b) && Effect(t, t', p) && Level(t.pages[p]) == l && SettledUpTo(t, l, p - 1)
    ensures SettledUpTo(t', l, p) && Level(t'.pages[p]) == l
  {
    hide Items, Stuck, Fits, Inv, FreshPage, WeighedPage;
    assert OldOk(t, t', p, p);
    forall x | x in t'.pages && !After(t', l, p, x)
      ensures Fits(t'.pages[x]) && !(IsOverlength(t'.pages[x]) && Stuck(t'.pages[x]))
    {
      if x == p || x !in t.pages {
        assert NewOk(t, t', p, x);
        FreshNotStuck(t'.pages[x]);
      } else {
        assert OldOk(t, t', p, x);
        SameCore(t.pages[x], t'.pages[x]);
        if t.pages[x].Leaf? { LeafHasParent(t, b, x, p); }
        SameStuck(t.pages[x], t'.pages[x]);
      }
    }
  }

  /** Every overlong leaf can be split. */
  predicate AllSplittable(t: Tree) {
    forall x {:trigger t.pages[x]} :: x in t.pages && IsOverlength(t.pages[x]) ==> !Stuck(t.pages[x])
  }

  /** A split neither helps nor harms the other leaves. */
  lemma SplittableStep(t: Tree, b: Bounds, t': Tree, b': Bounds, p: PageId)
    requires Inv(t, b) && Inv(t', b') && Effect(t, t', p) && !Stuck(t.pages[p])
    ensures AllSplittable(t) <==> AllSplittable(t')
  {
    hide Inv, Stuck, Fits, Items, FreshPage, WeighedPage;
    forall x | x in t.pages && x in t'.pages && x != p && t.pages[x].Leaf?
      ensures IsOverlength(t.pages[x]) == IsOverlength(t'.pages[x]) && Stuck(t.pages[x]) == Stuck(t'.pages[x])
    {
      assert OldOk(t, t', p, x);
      SameCore(t.pages[x], t'.pages[x]);
      LeafHasParent(t, b, x, p);
      LeafHasParent(t', b', x, p);
      SameStuck(t.pages[x], t'.pages[x]);
      SameStuck(t'.pages[x], t.pages[x]);
    }
    forall x | x in t'.pages && (x == p || x !in t.pages) && t'.pages[x].Leaf? ensures !Stuck(t'.pages[x]) {
      assert NewOk(t, t', p, x);
      LeafNotAbove(t, b, p);
      FreshNotStuck(t'.pages[x]);
    }
    forall x | x in t.pages ensures x in t'.pages && t.pages[x].Leaf? == t'.pages[x].Leaf? {
      assert OldOk(t, t', p, x);
      LevelKind(t, b, x);
      LevelKind(t', b', x);
    }
    BranchNotStuck(t);
    BranchNotStuck(t');
  }

  lemma LeafNotAbove(t: Tree, b: Bounds, p: PageId)
    requires p in t.pages
    ensures Level(t.pages[p]) >= 0
  {
  }

  lemma LevelKind(t: Tree, b: Bounds, x: PageId)
    requires Inv(t, b) && x in t.pages
    ensures t.pages[x].Leaf? <==> Level(t.pages[x]) == 0
  {
    assert PageOk(t, b, x);
  }

  lemma BranchNotStuck(t: Tree)
    ensures forall x {:trigger t.pages[x]} :: x in t.pages && t.pages[x].Branch? ==> !Stuck(t.pages[x])
  {
  }

  /** The recorded lengths cover what the records are charged. */
  predicate Weighed(t: Tree, lean: bool) {
    forall x {:trigger t.pages[x]} :: x in t.pages ==> WeighedPage(t.pages[x], lean)
  }

  /** What the recorded lengths cover before they cover after. */
  ghost predicate LengthsKept(t: Tree, t': Tree) {
    forall lean :: Weighed(t, lean) ==> Weighed(t', lean)
  }

  lemma LengthsKeptOn(t: Tree, u: Tree, v: Tree)
    requires LengthsKept(t, u) && LengthsKept(u, v)
    ensures LengthsKept(t, v)
  {
    hide Weighed;
  }

  lemma LengthsSame(t: Tree)
    ensures LengthsKept(t, t)
  {
  }

  lemma WeighedStep(t: Tree, b: Bounds, t': Tree, b': Bounds, p: PageId, lean: bool)
    requires Inv(t, b) && Inv(t', b') && Effect(t, t', p) && Weighed(t, lean)
    ensures Weighed(t', lean)
  {
    hide Comms, Temps, Fits, Items, Inv, FreshPage;
    forall x | x in t'.pages && t'.pages[x].Leaf? ensures WeighedPage(t'.pages[x], lean) {
      LevelKind(t', b', x);
      if x in t.pages && x != p {
        assert OldOk(t, t', p, x);
        SameCore(t.pages[x], t'.pages[x]);
      } else {
        assert NewOk(t, t', p, x);
      }
    }
  }

  /** So after the pass the records of every leaf fit its page. */
  lemma WeighedFits(p: Page)
    requires p.Leaf? && Fits(p) && WeighedPage(p, false)
    ensures Sum(Comms(p.recs)) <= MAX_LEAF && Sum(Temps(p.recs)) <= MAX_LEAF
  {
  }

  /** No record of a leaf waits to be dropped, and an empty leaf is not overlong. */
  predicate WholePage(p: Page) {
    p.Leaf? ==> (forall x :: x in p.recs ==> !x.gone) && (p.recs == [] ==> !IsOverlength(p))
  }

  predicate Whole(t: Tree) {
    forall x {:trigger t.pages[x]} :: x in t.pages ==> WholePage(t.pages[x])
  }

  lemma WholeStep(t: Tree, b: Bounds, t': Tree, b': Bounds, p: PageId)
    requires Inv(t, b) && Inv(t', b') && Effect(t, t', p) && Whole(t)
    ensures Whole(t')
  {
    hide WeighedPage, Fits, Items, Inv;
    forall x | x in t'.pages && t'.pages[x].Leaf? ensures WholePage(t'.pages[x]) {
      LevelKind(t', b', x);
      if x in t.pages && x != p {
        assert OldOk(t, t', p, x);
        SameCore(t.pages[x], t'.pages[x]);
      } else {
        assert NewOk(t, t', p, x);
      }
    }
  }

  /** Then every overlong leaf can be split. */
  lemma WholeNotStuck(p: Page)
    requires WholePage(p) && IsOverlength(p)
    ensures !Stuck(p) && (p.Leaf? ==> AllFit(p.recs, MAX_LEAF) ==> forall x :: x in p.recs ==> !NoBytes(x))
  {
    if p.Leaf? {
      var x := p.recs[|p.recs| - 1];
      assert x in p.recs;
      LiveHas(p.recs, AfterRelease(x));
      if AllFit(p.recs, MAX_LEAF) {
        forall y | y in p.recs ensures !NoBytes(y) {
          var i :| 0 <= i < |p.recs| && p.recs[i] == y;
          assert RecFit(p.recs[i], MAX_LEAF);
        }
      }
    }
  }

  /** Moving the walk to p takes the items p keeps out of the items ahead; the parts p hands on were
      ahead before. */
  lemma ItemsShrink(t: Tree, t': Tree, b': Bounds, l: nat, id: int, p: PageId)
    requires Inv(t', b') && Effect(t, t', p) && Level(t.pages[p]) == l && id < p
    ensures AheadItems(t', l, p) < AheadItems(t, l, id)
  {
    hide Inv, Fits, FreshPage, WeighedPage;
    assert OldOk(t, t', p, p) && NewOk(t, t', p, p);
    forall k | k in AheadItems(t', l, p) ensures k in AheadItems(t, l, id) {
      var x :| x in t'.pages && Level(t'.pages[x]) == l && x > p && k in Items(t'.pages[x]);
      if x in t.pages {
        assert OldOk(t, t', p, x);
        SameCore(t.pages[x], t'.pages[x]);
      } else {
        assert NewOk(t, t', p, x);
      }
    }
    var k := SomeItem(t'.pages[p]);
    ItemsApart(t', b', l, p, k);
  }

  lemma SomeItem(p: Page) returns (k: Key)
    requires Count(p) >= 1
    ensures k in Items(p)
  {
    if p.Leaf? {
      k := p.recs[0].key;
      assert p.recs[0] in p.recs;
    } else {
      k := p.entries[0].sep;
      assert p.entries[0] in p.entries;
    }
  }

  lemma ItemsIn(t: Tree, b: Bounds, x: PageId, k: Key)
    requires Inv(t, b) && x in t.pages && k in Items(t.pages[x])
    ensures x in b && In(k, b[x])
  {
    assert PageOk(t, b, x);
  }

  lemma ItemsApart(t: Tree, b: Bounds, l: nat, p: PageId, k: Key)
    requires Inv(t, b) && p in t.pages && Level(t.pages[p]) == l && k in Items(t.pages[p])
    ensures k !in AheadItems(t, l, p)
  {
    hide Inv, Items;
    if k in AheadItems(t, l, p) {
      var x :| x in t.pages && Level(t.pages[x]) == l && x > p && k in Items(t.pages[x]);
      ItemsIn(t, b, p, k);
      ItemsIn(t, b, x, k);
      InTargets(k, b[p]);
      InTargets(k, b[x]);
      TargetUnique(t, b, p, x, ByRecord(k));
    }
  }

  /** Moving past a page that is not split. */
  lemma ItemsShrinkOver(t: Tree, l: nat, id: int, p: PageId)
    requires p in t.pages && Level(t.pages[p]) == l && id < p
    ensures AheadItems(t, l, p) <= AheadItems(t, l, id)
  {
  }

  /** The levels below a split keep their pages. */
  lemma LowerLevelKept(t: Tree, t': Tree, p: PageId, l: nat)
    requires Effect(t, t', p) && l < Level(t.pages[p])
    ensures At(t', l) == At(t, l)
  {
    forall x ensures x in At(t', l) <==> x in At(t, l) {
      if x in t.pages { assert OldOk(t, t', p, x); }
      else if x in t'.pages { assert NewOk(t, t', p, x); }
    }
  }

  lemma WideAfter(t: Tree, t': Tree, p: PageId)
    requires Effect(t, t', p) && Level(t.pages[p]) > 0
    ensures Wide(t', Level(t.pages[p]))
  {
    assert OldOk(t, t', p, p);
  }

  /** The page of the queue the walk visits next. */
  lemma {:induction false} Least(t: Tree, s: set<PageId>) returns (p: PageId)
    requires s != {} && forall x :: x in s ==> x in t.pages
    ensures p in s && forall x :: x in s && x != p ==> After(t, Level(t.pages[p]), p, x)
    decreases |s|
  {
    var y :| y in s;
    if s == {y} {
      p := y;
    } else {
      var r := Least(t, s - {y});
      p := if After(t, Level(t.pages[y]), y, r) then y else r;
      forall x | x in s && x != p ensures After(t, Level(t.pages[p]), p, x) {
        assert x == y || x == r || x in s - {y};
      }
    }
  }

  // ---------- the measure of the walk ----------

  function LeafPhase(l: nat): nat {
    if l == 0 then 1 else 0
  }

  ghost function PagesBelow(t: Tree, l: nat): nat {
    if l == 0 then 0 else |At(t, l - 1)|
  }

  /** The queued pages of level l still ahead. */
  ghost function LevelQueue(t: Tree, queue: set<PageId>, l: nat, id: int): set<PageId> {
    set x | x in queue && x in t.pages && Level(t.pages[x]) == l && x > id
  }

  /** Going up a level: the leaf level is left for good; later either the level that is left has fewer
      pages than the one below it, or the root has stayed where it was. */
  lemma LevelUp(t: Tree, b: Bounds, t': Tree, l: nat, h: nat, p: PageId)
    requires Inv(t, b) && p in t.pages && Level(t.pages[p]) > l && (t' == t || Effect(t, t', p))
    requires l <= h && (l > 0 ==> Level(t.pages[t.root]) == h || Wide(t, l))
    ensures t.root in t.pages && Level(t.pages[p]) <= Level(t.pages[t.root])
    ensures var l', h' := Level(t.pages[p]), Level(t.pages[t.root]);
      || LeafPhase(l') < LeafPhase(l)
      || (LeafPhase(l') == LeafPhase(l) && PagesBelow(t', l') < PagesBelow(t, l))
      || (LeafPhase(l') == LeafPhase(l) && PagesBelow(t', l') == PagesBelow(t, l) && h' - l' < h - l)
  {
    hide Effect, Wide, At, ContentOk;
    assert PageOk(t, b, p);
    var l' := Level(t.pages[p]);
    if l > 0 {
      if t' != t { LowerLevelKept(t, t', p, l' - 1); }
      LevelsShrink(t, b, l, l' - 1);
      LevelShrinks(t, b, l);
    }
  }

  /** Staying on the level: fewer items are ahead, or no more items and fewer queued pages. */
  lemma SameLevel(t: Tree, b: Bounds, t': Tree, b': Bounds, queue: set<PageId>, queue': set<PageId>, l: nat, id: int,
      p: PageId)
    requires Inv(t', b') && p in t.pages && Level(t.pages[p]) == l && id < p && p in queue
    requires Effect(t, t', p) || (t' == t && queue' == queue)
    ensures PagesBelow(t', l) == PagesBelow(t, l)
    ensures || AheadItems(t', l, p) < AheadItems(t, l, id)
            || (AheadItems(t', l, p) == AheadItems(t, l, id) &&
                LevelQueue(t', queue', l, p) < LevelQueue(t, queue, l, id))
  {
    hide Effect, At, AheadItems, Inv;
    if t' == t && queue' == queue {
      ItemsShrinkOver(t, l, id, p);
      assert p in LevelQueue(t, queue, l, id) && p !in LevelQueue(t, queue, l, p);
    } else {
      ItemsShrink(t, t', b', l, id, p);
      if l > 0 { LowerLevelKept(t, t', p, l - 1); }
    }
  }

  /** What is not queued between two stops of the walk fits. */
  lemma NextSettled(t: Tree, queue: set<PageId>, l: nat, id: int, p: PageId)
    requires forall x {:trigger t.pages[x]} :: x in t.pages && IsOverlength(t.pages[x]) ==> x in queue
    requires SettledUpTo(t, l, id) && p in t.pages
    requires forall x :: x in queue && x in t.pages && After(t, l, id, x) && x != p ==>
        After(t, Level(t.pages[p]), p, x)
    ensures SettledUpTo(t, Level(t.pages[p]), p - 1)
    ensures !IsOverlength(t.pages[p]) ==> SettledUpTo(t, Level(t.pages[p]), p)
  {
  }

  /** At the end of the walk every page fits. */
  lemma AllSettled(t: Tree, queue: set<PageId>, l: nat, id: int)
    requires forall x {:trigger t.pages[x]} :: x in t.pages && IsOverlength(t.pages[x]) ==> x in queue
    requires SettledUpTo(t, l, id)
    requires forall x :: x in queue && x in t.pages ==> !After(t, l, id, x)
    ensures AllSplittable(t) && forall x :: x in t.pages ==> Fits(t.pages[x])
  {
  }
}
