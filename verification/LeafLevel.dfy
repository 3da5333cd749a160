/** What the splitting pass makes of the leaf level (src/core/IndexTree.cpp:422-431): every overlong leaf becomes the
    greedy chunks of its records, every other leaf stays as it is, and a second visit of a piece changes nothing. */
module LeafLevel {
  import opened KeyOrder
  import opened GreedySplit
  import opened PageIds
  import opened Pages
  import opened LeafCuts
  import opened TreeInv
  import opened TreeSplit
  import opened TreePieces
  import opened LeafChain
  import opened SettleOrder
  import opened TreeState
  import opened ForcedSplits

  /** A leaf that is one chunk of its own records. */
  ghost predicate OneChunk(y: Page) {
    && y.Leaf? && y.recs != [] && AllLive(y.recs)
    && var c, t, n := CLens(y.recs), TLens(y.recs), |y.recs|;
      && y.comm == Part(c, 0, n) && y.temp == Part(t, 0, n)
      && WithinMax(c, t, 0, n, LEAF_LIMITS) && WithinLimit(c, t, 0, n - 1, LEAF_LIMITS)
  }

  /** Leaf x of t has become the greedy chunks of its records, in pages that are new but for itself. */
  ghost predicate CutUp(t: Tree, u: Tree, x: PageId)
    requires x in t.pages && t.pages[x].Leaf?
  {
    exists ids, cuts :: Cut(u, x, Live(t.pages[x].recs), ids, cuts) && forall j :: 1 <= j < |ids| ==> ids[j] !in t.pages
  }

  ghost predicate LeafSettled(t: Tree, u: Tree, x: PageId)
    requires x in t.pages && t.pages[x].Leaf?
  {
    x in u.pages && if IsOverlength(t.pages[x]) then CutUp(t, u, x) else Core(u.pages[x]) == Core(t.pages[x])
  }

  ghost predicate WalkedPast(l: nat, at: int, x: PageId) {
    l > 0 || x <= at
  }

  /** The leaf level when the walk that began with tree t is at position (l, at). */
  ghost predicate LeavesTo(t: Tree, u: Tree, l: nat, at: int) {
    && t.pages.Keys <= u.pages.Keys
    && (forall x {:trigger LeafSettled(t, u, x)} :: x in t.pages && t.pages[x].Leaf? ==>
          && (WalkedPast(l, at, x) ==> LeafSettled(t, u, x))
          && (!WalkedPast(l, at, x) ==> Core(u.pages[x]) == Core(t.pages[x])))
    && (forall y {:trigger OneChunk(u.pages[y])} :: y in u.pages && y !in t.pages && u.pages[y].Leaf? ==>
          OneChunk(u.pages[y]))
  }

  /** The tree after the splitting pass. */
  ghost predicate TreeSettled(t: Tree, u: Tree) {
    && (forall x :: x in u.pages ==> Fits(u.pages[x]) && (IsOverlength(u.pages[x]) <==> AtLimit(u.pages[x])))
    && (forall x {:trigger LeafSettled(t, u, x)} :: x in t.pages && t.pages[x].Leaf? ==> LeafSettled(t, u, x))
    && (forall y {:trigger OneChunk(u.pages[y])} :: y in u.pages && y !in t.pages && u.pages[y].Leaf? ==>
          OneChunk(u.pages[y]))
    && ((forall x {:trigger t.pages[x]} :: x in t.pages ==> !IsOverlength(t.pages[x])) ==> u == t)
  }

  lemma StartOfLeaves(t: Tree)
    ensures LeavesTo(t, t, 0, -1)
  {
  }

  lemma SumsOfSlice(live: seq<Rec>, a: nat, b: nat)
    requires a < b <= |live|
    ensures var s := live[a..b]; var n := |s|;
      && Part(CLens(s), 0, n) == Part(CLens(live), a, b) && Part(TLens(s), 0, n) == Part(TLens(live), a, b)
      && Part(CLens(s), 0, n - 1) == Part(CLens(live), a, b - 1)
      && Part(TLens(s), 0, n - 1) == Part(TLens(live), a, b - 1)
  {
    var s := live[a..b];
    PartFrame(CLens(s), CLens(live), 0, |s|, a);
    PartFrame(TLens(s), TLens(live), 0, |s|, a);
    PartFrame(CLens(s), CLens(live), 0, |s| - 1, a);
    PartFrame(TLens(s), TLens(live), 0, |s| - 1, a);
  }

  /** A piece of a split is one chunk. */
  lemma PieceIsChunk(y: Page, s: seq<Rec>, cuts: seq<nat>, j: nat)
    requires Greedy(CLens(Live(s)), TLens(Live(s)), cuts, LEAF_LIMITS) && j < |cuts| && LeafPiece(y, Live(s), cuts, j)
    ensures OneChunk(y)
  {
    hide CLens, TLens, Part, Live;
    var live := Live(s);
    assert |CLens(live)| == |TLens(live)| == |live|;
    ChunkAt(CLens(live), TLens(live), cuts, LEAF_LIMITS, j);
    SumsOfSlice(live, Start(cuts, j), cuts[j]);
    forall i | 0 <= i < |y.recs| ensures !y.recs[i].gone && y.recs[i] == AfterRelease(y.recs[i]) {
      assert y.recs[i] == live[Start(cuts, j) + i] && live[Start(cuts, j) + i] in live;
    }
  }

  /** A split of a page that is one chunk puts the same records back. */
  lemma ChunkCutAgain(u: Tree, v: Tree, p: PageId, ids: seq<PageId>, cuts: seq<nat>)
    requires SplitApart(u, v, p, ids, cuts) && OneChunk(u.pages[p])
    ensures ids == [p] && v.pages[p].Leaf? && v.pages[p].recs == u.pages[p].recs
    ensures v.pages[p].comm == u.pages[p].comm && v.pages[p].temp == u.pages[p].temp
  {
    hide Effect, CLens, TLens, Part, Live;
    var y := u.pages[p];
    LiveAll(y.recs);
    assert |CLens(y.recs)| == |TLens(y.recs)| == |y.recs|;
    OneChunkIff(CLens(y.recs), TLens(y.recs), cuts, LEAF_LIMITS);
    ChunkAt(CLens(y.recs), TLens(y.recs), cuts, LEAF_LIMITS, 0);
    assert LeafPiece(v.pages[ids[0]], y.recs, cuts, 0) && cuts[0] == |y.recs|;
  }

  /** The chunks a leaf was cut into stay as they are when one of them is visited again, or another leaf is split. */
  lemma CutUpKept(t: Tree, u: Tree, v: Tree, x: PageId, p: PageId, ids: seq<PageId>, cuts: seq<nat>)
    requires x in t.pages && t.pages[x].Leaf? && CutUp(t, u, x) && SplitApart(u, v, p, ids, cuts)
    requires p != x && (p in t.pages || OneChunk(u.pages[p]))
    ensures CutUp(t, v, x)
  {
    hide Effect, CLens, TLens, Live, Greedy, OneChunk;
    var us, cs :| Cut(u, x, Live(t.pages[x].recs), us, cs) && forall j :: 1 <= j < |us| ==> us[j] !in t.pages;
    forall j | 0 <= j < |us| ensures us[j] in v.pages && LeafPiece(v.pages[us[j]], Live(t.pages[x].recs), cs, j) {
      var y := us[j];
      assert LeafPiece(u.pages[y], Live(t.pages[x].recs), cs, j);
      if y == p {
        ChunkCutAgain(u, v, p, ids, cuts);
      } else {
        AnotherLeaf(u, v, p, y);
      }
    }
    assert Cut(v, x, Live(t.pages[x].recs), us, cs);
  }

  lemma AnotherLeaf(u: Tree, v: Tree, p: PageId, y: PageId)
    requires Effect(u, v, p) && y in u.pages && y != p && u.pages[y].Leaf?
    ensures y in v.pages && Core(v.pages[y]) == Core(u.pages[y])
  {
    assert OldOk(u, v, p, y);
  }

  /** Where leaf x stands when the walk has come to (l, at). */
  ghost predicate LeafAtWalk(t: Tree, u: Tree, l: nat, at: int, x: PageId)
    requires x in t.pages && t.pages[x].Leaf?
  {
    x in u.pages && if WalkedPast(l, at, x) then LeafSettled(t, u, x) else Core(u.pages[x]) == Core(t.pages[x])
  }

  lemma LeafWalked(t: Tree, u: Tree, l: nat, at: int, x: PageId)
    requires LeavesTo(t, u, l, at) && x in t.pages && t.pages[x].Leaf?
    ensures LeafAtWalk(t, u, l, at, x) && u.pages[x].Leaf?
  {
    assert LeafSettled(t, u, x) || !WalkedPast(l, at, x);
    if WalkedPast(l, at, x) && IsOverlength(t.pages[x]) {
      var ids, cuts :| Cut(u, x, Live(t.pages[x].recs), ids, cuts) && forall j :: 1 <= j < |ids| ==> ids[j] !in t.pages;
      assert LeafPiece(u.pages[ids[0]], Live(t.pages[x].recs), cuts, 0);
    }
  }

  lemma LeavesWalked(t: Tree, v: Tree, l: nat, at: int)
    requires t.pages.Keys <= v.pages.Keys
    requires forall x {:trigger LeafAtWalk(t, v, l, at, x)} :: x in t.pages && t.pages[x].Leaf? ==>
        LeafAtWalk(t, v, l, at, x)
    requires forall y {:trigger OneChunk(v.pages[y])} :: y in v.pages && y !in t.pages && v.pages[y].Leaf? ==>
        OneChunk(v.pages[y])
    ensures LeavesTo(t, v, l, at)
  {
    hide LeafSettled, OneChunk;
    forall x | x in t.pages && t.pages[x].Leaf?
      ensures WalkedPast(l, at, x) ==> LeafSettled(t, v, x)
      ensures !WalkedPast(l, at, x) ==> Core(v.pages[x]) == Core(t.pages[x])
    {
      assert LeafAtWalk(t, v, l, at, x);
    }
  }

  /** A split of a leaf at a stop of the walk. */
  lemma LeafStop(t: Tree, u: Tree, v: Tree, p: PageId, ids: seq<PageId>, cuts: seq<nat>)
    requires SplitApart(u, v, p, ids, cuts) && IsOverlength(u.pages[p]) && LeavesTo(t, u, 0, p - 1)
    ensures LeavesTo(t, v, 0, p)
  {
    hide SplitApart, LeafSettled, OneChunk, IsOverlength, CutUp;
    ApartFacts(u, v, p, ids, cuts);
    forall x | x in t.pages && t.pages[x].Leaf? ensures LeafAtWalk(t, v, 0, p, x) {
      LeafWalked(t, u, 0, p - 1, x);
      LeafStopAt(t, u, v, p, ids, cuts, x);
    }
    forall y | y in v.pages && y !in t.pages && v.pages[y].Leaf? ensures OneChunk(v.pages[y]) {
      NewLeaf(t, u, v, p, ids, cuts, y);
    }
    LeavesWalked(t, v, 0, p);
  }

  lemma ApartFacts(u: Tree, v: Tree, p: PageId, ids: seq<PageId>, cuts: seq<nat>)
    requires SplitApart(u, v, p, ids, cuts)
    ensures u.pages.Keys <= v.pages.Keys && p in u.pages && u.pages[p].Leaf?
    ensures forall j :: 1 <= j < |ids| ==> ids[j] !in u.pages
  {
    hide Cut;
    forall x | x in u.pages ensures x in v.pages { assert OldOk(u, v, p, x); }
  }

  lemma LeafStopAt(t: Tree, u: Tree, v: Tree, p: PageId, ids: seq<PageId>, cuts: seq<nat>, x: PageId)
    requires SplitApart(u, v, p, ids, cuts) && IsOverlength(u.pages[p]) && LeavesTo(t, u, 0, p - 1)
    requires x in t.pages && t.pages[x].Leaf? && LeafAtWalk(t, u, 0, p - 1, x) && u.pages[x].Leaf?
    ensures LeafAtWalk(t, v, 0, p, x)
  {
    hide OneChunk, Live, Fits, Effect;
    ApartFacts(u, v, p, ids, cuts);
    if x == p {
      assert t.pages[p].recs == u.pages[p].recs && IsOverlength(t.pages[p]);
      assert Cut(v, x, Live(t.pages[x].recs), ids, cuts);
      assert forall j :: 1 <= j < |ids| ==> ids[j] !in t.pages;
      OtherKept(u, v, p, x);
    } else {
      OtherKept(u, v, p, x);
      if x < p && IsOverlength(t.pages[x]) {
        CutUpKept(t, u, v, x, p, ids, cuts);
      }
    }
  }

  lemma OtherKept(u: Tree, v: Tree, p: PageId, x: PageId)
    requires Effect(u, v, p) && x in u.pages && u.pages[x].Leaf?
    ensures x in v.pages && (x != p ==> Core(v.pages[x]) == Core(u.pages[x]))
  {
    assert OldOk(u, v, p, x);
  }

  lemma NewLeaf(t: Tree, u: Tree, v: Tree, p: PageId, ids: seq<PageId>, cuts: seq<nat>, y: PageId)
    requires SplitApart(u, v, p, ids, cuts) && LeavesTo(t, u, 0, p - 1)
    requires y in v.pages && y !in t.pages && v.pages[y].Leaf?
    ensures OneChunk(v.pages[y])
  {
    hide LeafSettled, Live, Effect, OneChunk;
    if y in ids {
      var j :| 0 <= j < |ids| && ids[j] == y;
      PieceIsChunk(v.pages[y], u.pages[p].recs, cuts, j);
    } else {
      assert y in u.pages && y != p;
      SameLeafKind(u, v, p, y);
      OtherKept(u, v, p, y);
      ChunkCore(u.pages[y], v.pages[y]);
    }
  }

  lemma SameLeafKind(u: Tree, v: Tree, p: PageId, y: PageId)
    requires Effect(u, v, p) && y in u.pages && y in v.pages && v.pages[y].Leaf? && p != y
    requires u.pages[p].Leaf?
    ensures u.pages[y].Leaf?
  {
    assert OldOk(u, v, p, y);
  }

  lemma ChunkCore(x: Page, y: Page)
    requires Core(x) == Core(y) && OneChunk(x)
    ensures OneChunk(y)
  {
  }

  /** A stop at a branch page, which leaves the leaves alone, or at a page that is not overlong. */
  lemma OtherStop(t: Tree, u: Tree, v: Tree, b': Bounds, l: nat, at: int, p: PageId)
    requires Inv(v, b') && LeavesTo(t, u, l, at) && (v == u || (Effect(u, v, p) && Level(u.pages[p]) > 0))
    ensures LeavesTo(t, v, l, at)
  {
    hide Inv, LeafSettled, OneChunk;
    if v != u {
      forall x | x in u.pages ensures x in v.pages { assert OldOk(u, v, p, x); }
      forall x | x in t.pages && t.pages[x].Leaf? ensures LeafAtWalk(t, v, l, at, x) {
        LeafWalked(t, u, l, at, x);
        LeafAway(t, u, v, l, at, p, x);
      }
      forall y | y in v.pages && y !in t.pages && v.pages[y].Leaf? ensures OneChunk(v.pages[y]) {
        LevelKind(v, b', y);
        if y in u.pages {
          assert OldOk(u, v, p, y);
          SameCore(u.pages[y], v.pages[y]);
          ChunkCore(u.pages[y], v.pages[y]);
        } else {
          NewIsHigher(u, v, p, y);
        }
      }
      LeavesWalked(t, v, l, at);
    }
  }

  lemma LeafAway(t: Tree, u: Tree, v: Tree, l: nat, at: int, p: PageId, x: PageId)
    requires Effect(u, v, p) && Level(u.pages[p]) > 0 && x in t.pages && t.pages[x].Leaf?
    requires LeafAtWalk(t, u, l, at, x) && u.pages[x].Leaf?
    ensures LeafAtWalk(t, v, l, at, x)
  {
    hide OneChunk, Live, Fits, Effect, CLens, TLens, Greedy;
    AwayCore(u, v, p, x);
    if WalkedPast(l, at, x) && IsOverlength(t.pages[x]) {
      var ids, cuts :| Cut(u, x, Live(t.pages[x].recs), ids, cuts) && forall j :: 1 <= j < |ids| ==> ids[j] !in t.pages;
      LeafPiecesKept(u, v, p, ids, Live(t.pages[x].recs), cuts);
      assert Cut(v, x, Live(t.pages[x].recs), ids, cuts);
    }
  }

  lemma AwayCore(u: Tree, v: Tree, p: PageId, x: PageId)
    requires Effect(u, v, p) && Level(u.pages[p]) > 0 && x in u.pages && u.pages[x].Leaf?
    ensures x in v.pages && Core(v.pages[x]) == Core(u.pages[x])
  {
    assert OldOk(u, v, p, x);
  }

  /** The walk goes on to (l', at') past leaves that are not overlong. */
  lemma PassedOver(t: Tree, u: Tree, l: nat, at: int, l': nat, at': int)
    requires LeavesTo(t, u, l, at) && (l' > l || (l' == l && at' >= at))
    requires forall x {:trigger u.pages[x]} :: x in u.pages && u.pages[x].Leaf? ==>
               !WalkedPast(l, at, x) && WalkedPast(l', at', x) ==> !IsOverlength(u.pages[x])
    ensures LeavesTo(t, u, l', at')
  {
    hide CutUp, OneChunk, IsOverlength;
    forall x | x in t.pages && t.pages[x].Leaf? ensures LeafAtWalk(t, u, l', at', x) {
      LeafWalked(t, u, l, at, x);
      if !WalkedPast(l, at, x) && WalkedPast(l', at', x) { OverlengthCore(u.pages[x], t.pages[x]); }
    }
    LeavesWalked(t, u, l', at');
  }

  lemma OverlengthCore(x: Page, y: Page)
    requires Core(x) == Core(y)
    ensures IsOverlength(x) == IsOverlength(y)
  {
  }
}
