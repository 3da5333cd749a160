/** The chain of leaf pages and the sequence of records it spells (src/core/LeafPage.cpp:587-637). */
module LeafChain {
  import opened KeyOrder
  import opened GreedySplit
  import opened PageIds
  import opened Pages
  import opened Search
  import opened LeafCuts
  import opened TreeInv
  import opened TreeSplit
  import opened TreePieces

  ghost predicate Leaves(t: Tree, chain: seq<PageId>) {
    forall c :: 0 <= c < |chain| ==> chain[c] in t.pages && t.pages[chain[c]].Leaf?
  }

  function Neighbour(chain: seq<PageId>, c: int): Option<PageId> {
    if 0 <= c < |chain| then Some(chain[c]) else None
  }

  ghost predicate Linked(t: Tree, chain: seq<PageId>, c: nat)
    requires Leaves(t, chain) && c < |chain|
  {
    t.pages[chain[c]].next == Neighbour(chain, c + 1) && t.pages[chain[c]].prev == Neighbour(chain, c - 1)
  }

  /** The chain holds every leaf, in the order of the ranges, and the page links follow it. */
  ghost predicate ChainOk(t: Tree, b: Bounds, chain: seq<PageId>) {
    && |chain| > 0 && Leaves(t, chain)
    && (forall c :: 0 <= c < |chain| ==> chain[c] in b)
    && b[chain[0]].lo == NegInf && b[chain[|chain| - 1]].hi == PosInf
    && (forall c {:trigger Linked(t, chain, c)} :: 0 <= c < |chain| ==> Linked(t, chain, c))
    && (forall c {:trigger Linked(t, chain, c)} :: 0 <= c < |chain| - 1 ==> b[chain[c]].hi == b[chain[c + 1]].lo)
    && (forall id :: id in t.pages && t.pages[id].Leaf? ==> id in chain)
  }

  /** The records of the leaves, in chain order. */
  ghost function Contents(t: Tree, chain: seq<PageId>): seq<Rec>
    requires Leaves(t, chain)
  {
    if chain == [] then []
    else Contents(t, chain[..|chain| - 1]) + t.pages[chain[|chain| - 1]].recs
  }

  lemma {:induction false} ContentsConcat(t: Tree, u: seq<PageId>, v: seq<PageId>)
    requires Leaves(t, u) && Leaves(t, v)
    ensures Leaves(t, u + v) && Contents(t, u + v) == Contents(t, u) + Contents(t, v)
  {
    if v == [] {
      assert u + v == u;
    } else {
      var n := |v| - 1;
      ContentsConcat(t, u, v[..n]);
      assert (u + v)[..|u + v| - 1] == u + v[..n];
      assert (u + v)[|u + v| - 1] == v[n];
    }
  }

  lemma {:induction false} ContentsFrame(t: Tree, t': Tree, chain: seq<PageId>)
    requires Leaves(t, chain) && Leaves(t', chain)
    requires forall c :: 0 <= c < |chain| ==> t.pages[chain[c]].recs == t'.pages[chain[c]].recs
    ensures Contents(t, chain) == Contents(t', chain)
  {
    if chain != [] {
      ContentsFrame(t, t', chain[..|chain| - 1]);
    }
  }

  lemma ContentsOne(t: Tree, id: PageId)
    requires id in t.pages && t.pages[id].Leaf?
    ensures Leaves(t, [id])
    ensures Contents(t, [id]) == t.pages[id].recs
  {
    assert [id][..0] == [];
    assert Contents(t, [id][..0]) == [];
  }

  /** The contents around one leaf of the chain. */
  lemma ContentsAround(t: Tree, chain: seq<PageId>, c: nat)
    requires Leaves(t, chain) && c < |chain|
    ensures Leaves(t, chain[..c]) && Leaves(t, chain[c + 1..])
    ensures Contents(t, chain) == Contents(t, chain[..c]) + t.pages[chain[c]].recs + Contents(t, chain[c + 1..])
  {
    assert chain == chain[..c] + ([chain[c]] + chain[c + 1..]);
    ContentsConcat(t, [chain[c]], chain[c + 1..]);
    ContentsConcat(t, chain[..c], [chain[c]] + chain[c + 1..]);
    ContentsOne(t, chain[c]);
  }

  // ---------- order along the chain ----------

  lemma {:induction false} ChainOrder(t: Tree, b: Bounds, chain: seq<PageId>, c: nat, d: nat)
    requires Inv(t, b) && ChainOk(t, b, chain) && c < d < |chain|
    ensures ExtLe(b[chain[c]].hi, b[chain[d]].lo)
    decreases d
  {
    hide ContentOk;
    assert PageOk(t, b, chain[c]) && PageOk(t, b, chain[d - 1]);
    assert Linked(t, chain, d - 1) && Linked(t, chain, c);
    if c < d - 1 {
      ChainOrder(t, b, chain, c, d - 1);
    }
  }

  lemma ChainDistinct(t: Tree, b: Bounds, chain: seq<PageId>, c: nat, d: nat)
    requires Inv(t, b) && ChainOk(t, b, chain) && c < d < |chain|
    ensures chain[c] != chain[d]
  {
    hide ContentOk;
    ChainOrder(t, b, chain, c, d);
    assert PageOk(t, b, chain[c]);
    ApartFromItself(b[chain[c]]);
  }

  /** Records of leaves before the target leaf are before the probe, records of later leaves are not. */
  lemma ChainSides(t: Tree, b: Bounds, chain: seq<PageId>, c: nat, d: nat, p: Probe, m: nat)
    requires Inv(t, b) && ChainOk(t, b, chain) && c < |chain| && d < |chain| && c != d
    requires Targets(p, b[chain[c]]) && m < |t.pages[chain[d]].recs|
    ensures Before(t.pages[chain[d]].recs[m].key, p) <==> d < c
  {
    assert PageOk(t, b, chain[d]);
    var k := t.pages[chain[d]].recs[m].key;
    assert In(k, b[chain[d]]);
    if d < c {
      ChainOrder(t, b, chain, d, c);
      BeforeMonotone(k, b[chain[c]].lo.k, p);
    } else {
      ChainOrder(t, b, chain, c, d);
      RangeProper(t, b, chain[c]);
      AfterMonotone(b[chain[c]].hi.k, k, p);
    }
  }

  lemma {:induction false} ContentsFrom(t: Tree, chain: seq<PageId>, x: Rec) returns (d: nat, m: nat)
    requires Leaves(t, chain) && x in Contents(t, chain)
    ensures d < |chain| && m < |t.pages[chain[d]].recs| && t.pages[chain[d]].recs[m] == x
  {
    var n := |chain| - 1;
    if x in t.pages[chain[n]].recs {
      d := n;
      m :| 0 <= m < |t.pages[chain[n]].recs| && t.pages[chain[n]].recs[m] == x;
    } else {
      d, m := ContentsFrom(t, chain[..n], x);
    }
  }

  /** All records of a part of the chain lie on one side of the probe. */
  lemma PartOnSide(t: Tree, b: Bounds, chain: seq<PageId>, c: nat, p: Probe)
    requires Inv(t, b) && ChainOk(t, b, chain) && c < |chain| && Targets(p, b[chain[c]])
    ensures Leaves(t, chain[..c]) && Leaves(t, chain[c + 1..])
    ensures forall x :: x in Contents(t, chain[..c]) ==> Before(x.key, p)
    ensures forall x :: x in Contents(t, chain[c + 1..]) ==> !Before(x.key, p)
  {
    hide Inv, ChainOk;
    assert Leaves(t, chain[..c]) && Leaves(t, chain[c + 1..]) by { ChainLeaves(t, b, chain); }
    forall x | x in Contents(t, chain[..c]) ensures Before(x.key, p) {
      var d, m := ContentsFrom(t, chain[..c], x);
      ChainSides(t, b, chain, c, d, p, m);
    }
    forall x | x in Contents(t, chain[c + 1..]) ensures !Before(x.key, p) {
      var d, m := ContentsFrom(t, chain[c + 1..], x);
      ChainSides(t, b, chain, c, c + 1 + d, p, m);
    }
  }

  lemma ChainLeaves(t: Tree, b: Bounds, chain: seq<PageId>)
    requires ChainOk(t, b, chain)
    ensures Leaves(t, chain) && |chain| > 0
  {
  }

  lemma InChain(t: Tree, b: Bounds, chain: seq<PageId>, p: PageId) returns (c: nat)
    requires ChainOk(t, b, chain) && p in t.pages && t.pages[p].Leaf?
    ensures c < |chain| && chain[c] == p
  {
    c :| 0 <= c < |chain| && chain[c] == p;
  }

  /** A search that ends in the target leaf at the leaf's lower bound has found the lower bound of the
      whole record sequence. */
  lemma GlobalLowerBound(t: Tree, b: Bounds, chain: seq<PageId>, c: nat, p: Probe, i: nat)
    requires Inv(t, b) && ChainOk(t, b, chain) && c < |chain| && Targets(p, b[chain[c]])
    requires IsLowerBound(t.pages[chain[c]].recs, p, i)
    ensures Leaves(t, chain[..c]) && Leaves(t, chain)
    ensures IsLowerBound(Contents(t, chain), p, |Contents(t, chain[..c])| + i)
  {
    hide Inv, ChainOk, Contents;
    ChainLeaves(t, b, chain);
    ContentsAround(t, chain, c);
    PartOnSide(t, b, chain, c, p);
    JoinLowerBound(Contents(t, chain[..c]), t.pages[chain[c]].recs, Contents(t, chain[c + 1..]), p, i);
  }

  lemma JoinLowerBound(u: seq<Rec>, s: seq<Rec>, v: seq<Rec>, p: Probe, i: nat)
    requires IsLowerBound(s, p, i)
    requires forall x :: x in u ==> Before(x.key, p)
    requires forall x :: x in v ==> !Before(x.key, p)
    ensures IsLowerBound(u + s + v, p, |u| + i)
  {
    var w := u + s + v;
    forall j | 0 <= j < |w| ensures Before(w[j].key, p) <==> j < |u| + i {
      if j < |u| { assert w[j] in u; }
      else if j < |u| + |s| { assert w[j] == s[j - |u|]; }
      else { assert w[j] in v; }
    }
  }

  /** The records of the tree are sorted strictly: no key is held twice. */
  lemma {:induction false} ContentsSorted(t: Tree, b: Bounds, chain: seq<PageId>, n: nat)
    requires Inv(t, b) && ChainOk(t, b, chain) && n <= |chain|
    ensures Leaves(t, chain[..n]) && SortedRecs(Contents(t, chain[..n]))
    decreases n
  {
    if n > 0 {
      ContentsSorted(t, b, chain, n - 1);
      assert chain[..n][..n - 1] == chain[..n - 1];
      var u, s := Contents(t, chain[..n - 1]), t.pages[chain[n - 1]].recs;
      assert PageOk(t, b, chain[n - 1]);
      forall x, y | x in u && y in s ensures Lt(x.key, y.key) {
        var d, m := ContentsFrom(t, chain[..n - 1], x);
        EarlierIsLess(t, b, chain, d, m, n - 1, y);
      }
      SortedJoin(u, s);
    }
  }

  lemma EarlierIsLess(t: Tree, b: Bounds, chain: seq<PageId>, d: nat, m: nat, e: nat, y: Rec)
    requires Inv(t, b) && ChainOk(t, b, chain) && d < e < |chain|
    requires m < |t.pages[chain[d]].recs| && y in t.pages[chain[e]].recs
    ensures Lt(t.pages[chain[d]].recs[m].key, y.key)
  {
    assert PageOk(t, b, chain[d]) && PageOk(t, b, chain[e]);
    ChainOrder(t, b, chain, d, e);
    assert In(t.pages[chain[d]].recs[m].key, b[chain[d]]) && In(y.key, b[chain[e]]);
  }

  lemma SortedJoin(u: seq<Rec>, s: seq<Rec>)
    requires SortedRecs(u) && SortedRecs(s)
    requires forall x, y :: x in u && y in s ==> Lt(x.key, y.key)
    ensures SortedRecs(u + s)
  {
    var w := u + s;
    forall i, j | 0 <= i < j < |w| ensures Lt(w[i].key, w[j].key) {
      if i < |u| <= j { assert w[i] in u && w[j] in s; }
    }
  }

  // ---------- splits and the chain ----------

  /** Growing the tree and splitting branch pages leave the leaves alone. */
  ghost predicate LeavesKept(t: Tree, t': Tree, b: Bounds, b': Bounds) {
    && (forall id :: id in t.pages && t.pages[id].Leaf? ==>
          id in t'.pages && t'.pages[id] == WithParent(t.pages[id], t'.pages[id].parent) && id in b && id in b' &&
              b'[id] == b[id])
    && (forall id :: id in t'.pages && t'.pages[id].Leaf? ==> id in t.pages && t.pages[id].Leaf?)
  }

  lemma ChainKept(t: Tree, b: Bounds, t': Tree, b': Bounds, chain: seq<PageId>)
    requires ChainOk(t, b, chain) && LeavesKept(t, t', b, b')
    ensures ChainOk(t', b', chain) && Contents(t', chain) == Contents(t, chain)
  {
    assert Leaves(t', chain);
    ContentsFrame(t, t', chain);
    forall c | 0 <= c < |chain| ensures Linked(t', chain, c) &&
        (c < |chain| - 1 ==> b'[chain[c]].hi == b'[chain[c + 1]].lo) {
      assert Linked(t, chain, c);
    }
  }

  ghost predicate PieceLinked(t: Tree, t': Tree, ids: seq<PageId>, j: nat)
    requires j < |ids| && ids[0] in t.pages && t.pages[ids[0]].Leaf?
  {
    && ids[j] in t'.pages && t'.pages[ids[j]].Leaf?
    && t'.pages[ids[j]].next == (if j < |ids| - 1 then Some(ids[j + 1]) else t.pages[ids[0]].next)
    && t'.pages[ids[j]].prev == (if j > 0 then Some(ids[j - 1]) else t.pages[ids[0]].prev)
  }

  /** The pieces of a leaf are linked in order between the old neighbours. */
  ghost predicate Relinked(t: Tree, t': Tree, ids: seq<PageId>) {
    && |ids| > 0 && ids[0] in t.pages && t.pages[ids[0]].Leaf?
    && (forall j {:trigger PieceLinked(t, t', ids, j)} :: 0 <= j < |ids| ==> PieceLinked(t, t', ids, j))
    && (forall x :: x in t.pages && t.pages[x].Leaf? && x !in ids ==>
          && x in t'.pages && t'.pages[x].Leaf?
          && t'.pages[x].recs == t.pages[x].recs && t'.pages[x].next == t.pages[x].next
          && t'.pages[x].prev == (if t.pages[ids[0]].next == Some(x) then Some(ids[|ids| - 1]) else t.pages[x].prev))
    && (forall x :: x in t'.pages && t'.pages[x].Leaf? ==> x in ids || (x in t.pages && t.pages[x].Leaf?))
  }

  function ChainSplice(chain: seq<PageId>, c: nat, ids: seq<PageId>): seq<PageId>
    requires c < |chain|
  {
    chain[..c] + ids + chain[c + 1..]
  }

  lemma SpliceIndex(chain: seq<PageId>, c: nat, ids: seq<PageId>, d: nat)
    requires c < |chain| && d < |chain| + |ids| - 1
    ensures |ChainSplice(chain, c, ids)| == |chain| + |ids| - 1
    ensures ChainSplice(chain, c, ids)[d] == if d < c then chain[d]
                                             else if d < c + |ids| then ids[d - c] else chain[d - |ids| + 1]
  {
  }

  lemma ChainSplitLink(t: Tree, b: Bounds, t': Tree, chain: seq<PageId>, c: nat, ids: seq<PageId>, d: nat)
    requires Inv(t, b) && ChainOk(t, b, chain) && c < |chain| && Relinked(t, t', ids) && ids[0] == chain[c]
    requires forall j :: 1 <= j < |ids| ==> ids[j] !in t.pages
    requires d < |chain| + |ids| - 1
    ensures |ChainSplice(chain, c, ids)| == |chain| + |ids| - 1
    ensures var x := ChainSplice(chain, c, ids)[d];
      x in t'.pages && t'.pages[x].Leaf?
      && t'.pages[x].next == Neighbour(ChainSplice(chain, c, ids), d + 1)
      && t'.pages[x].prev == Neighbour(ChainSplice(chain, c, ids), d - 1)
  {
    hide Inv;
    var n := |ids|;
    SpliceIndex(chain, c, ids, d);
    if d > 0 { SpliceIndex(chain, c, ids, d - 1); }
    if d + 1 < |chain| + n - 1 { SpliceIndex(chain, c, ids, d + 1); }
    assert Linked(t, chain, c);
    if d < c || d >= c + n {
      var e := if d < c then d else d - n + 1;
      assert Linked(t, chain, e);
      OtherLeaf(t, b, chain, c, ids, e);
    } else {
      var j := d - c;
      assert PieceLinked(t, t', ids, j);
    }
  }

  lemma OtherLeaf(t: Tree, b: Bounds, chain: seq<PageId>, c: nat, ids: seq<PageId>, e: nat)
    requires Inv(t, b) && ChainOk(t, b, chain) && c < |chain| && e < |chain| && e != c && |ids| > 0 &&
        ids[0] == chain[c]
    requires forall j :: 1 <= j < |ids| ==> ids[j] !in t.pages
    ensures chain[e] !in ids
    ensures t.pages[chain[c]].next == Some(chain[e]) <==> e == c + 1
  {
    hide Inv;
    assert Linked(t, chain, c);
    if e < c { ChainDistinct(t, b, chain, e, c); } else { ChainDistinct(t, b, chain, c, e); }
    if c + 1 < |chain| && e != c + 1 {
      if e < c + 1 { ChainDistinct(t, b, chain, e, c + 1); } else { ChainDistinct(t, b, chain, c + 1, e); }
    }
  }

  lemma ChainSplitRange(t: Tree, b: Bounds, b': Bounds, chain: seq<PageId>, c: nat, ids: seq<PageId>, es: seq<Entry>,
      d: nat)
    requires Inv(t, b) && ChainOk(t, b, chain) && c < |chain| && Rebounded(b, b', ids, es) && ids[0] == chain[c]
    requires forall j :: 1 <= j < |ids| ==> ids[j] !in t.pages
    requires d < |chain| + |ids| - 1
    ensures |ChainSplice(chain, c, ids)| == |chain| + |ids| - 1
    ensures var s := ChainSplice(chain, c, ids);
      && s[d] in b'
      && (d == 0 ==> b'[s[d]].lo == NegInf) && (d == |s| - 1 ==> b'[s[d]].hi == PosInf)
      && (d < |s| - 1 ==> s[d + 1] in b' && b'[s[d]].hi == b'[s[d + 1]].lo)
  {
    hide Inv;
    var n := |ids|;
    SpliceIndex(chain, c, ids, d);
    if d + 1 < |chain| + n - 1 { SpliceIndex(chain, c, ids, d + 1); }
    assert Linked(t, chain, c);
    if d < c || d >= c + n {
      var e := if d < c then d else d - n + 1;
      assert Linked(t, chain, e);
      OtherLeaf(t, b, chain, c, ids, e);
      if e + 1 < |chain| && e + 1 != c { OtherLeaf(t, b, chain, c, ids, e + 1); }
    } else if d == c + n - 1 && c + 1 < |chain| {
      OtherLeaf(t, b, chain, c, ids, c + 1);
    }
  }

  /** Splitting a leaf replaces it in the chain by its pieces. */
  lemma ChainSplit(t: Tree, b: Bounds, t': Tree, b': Bounds, chain: seq<PageId>, c: nat, ids: seq<PageId>,
      es: seq<Entry>)
    requires Inv(t, b) && ChainOk(t, b, chain) && c < |chain| && ids != [] && ids[0] == chain[c]
    requires Relinked(t, t', ids) && Rebounded(b, b', ids, es)
    requires forall j :: 1 <= j < |ids| ==> ids[j] !in t.pages
    ensures ChainOk(t', b', ChainSplice(chain, c, ids))
  {
    var s := ChainSplice(chain, c, ids);
    forall d | 0 <= d < |s|
      ensures s[d] in t'.pages && t'.pages[s[d]].Leaf? && s[d] in b'
      ensures d == 0 ==> b'[s[d]].lo == NegInf
      ensures d == |s| - 1 ==> b'[s[d]].hi == PosInf
    {
      ChainSplitLink(t, b, t', chain, c, ids, d);
      ChainSplitRange(t, b, b', chain, c, ids, es, d);
    }
    assert Leaves(t', s);
    forall d | 0 <= d < |s| ensures Linked(t', s, d) && (d < |s| - 1 ==> b'[s[d]].hi == b'[s[d + 1]].lo) {
      ChainSplitLink(t, b, t', chain, c, ids, d);
      ChainSplitRange(t, b, b', chain, c, ids, es, d);
    }
    forall id | id in t'.pages && t'.pages[id].Leaf? ensures id in s {
      StillInChain(t, b, chain, c, ids, id);
    }
  }

  lemma StillInChain(t: Tree, b: Bounds, chain: seq<PageId>, c: nat, ids: seq<PageId>, id: PageId)
    requires ChainOk(t, b, chain) && c < |chain| && ids != [] && ids[0] == chain[c]
    requires id in ids || (id in t.pages && t.pages[id].Leaf?)
    ensures id in ChainSplice(chain, c, ids)
  {
    if id !in ids {
      var d :| 0 <= d < |chain| && chain[d] == id;
      assert d != c;
      SpliceIndex(chain, c, ids, if d < c then d else d + |ids| - 1);
    }
  }

  /** The pieces together hold the records the split page kept. */
  lemma {:induction false} PiecesTogether(t': Tree, ids: seq<PageId>, live: seq<Rec>, cuts: seq<nat>, n: nat)
    requires |ids| == |cuts| && CutsOk(cuts, |live|) && n <= |ids|
    requires Leaves(t', ids)
    requires forall j :: 0 <= j < |ids| ==> LeafPiece(t'.pages[ids[j]], live, cuts, j)
    ensures Leaves(t', ids[..n]) && Start(cuts, n) <= |live|
    ensures Contents(t', ids[..n]) == live[..Start(cuts, n)]
    decreases n
  {
    if n > 0 {
      PiecesTogether(t', ids, live, cuts, n - 1);
      assert ids[..n][..n - 1] == ids[..n - 1];
      assert LeafPiece(t'.pages[ids[n - 1]], live, cuts, n - 1);
      assert Start(cuts, n - 1) < cuts[n - 1];
      assert live[..Start(cuts, n - 1)] + live[Start(cuts, n - 1)..cuts[n - 1]] == live[..cuts[n - 1]];
    } else {
      assert ids[..0] == [];
    }
  }

  /** So a leaf split only drops the records that were to be dropped. */
  lemma SplitContents(t: Tree, b: Bounds, t': Tree, chain: seq<PageId>, c: nat, ids: seq<PageId>, live: seq<Rec>,
      cuts: seq<nat>)
    requires Inv(t, b) && ChainOk(t, b, chain) && c < |chain| && ids != [] && ids[0] == chain[c]
    requires Relinked(t, t', ids) && |ids| == |cuts| && CutsOk(cuts, |live|)
    requires forall j :: 1 <= j < |ids| ==> ids[j] !in t.pages
    requires Leaves(t', ids)
    requires forall j :: 0 <= j < |ids| ==> LeafPiece(t'.pages[ids[j]], live, cuts, j)
    requires live == Live(t.pages[ids[0]].recs)
    ensures Leaves(t, chain) && Leaves(t', ChainSplice(chain, c, ids))
    ensures Live(Contents(t', ChainSplice(chain, c, ids))) == Live(Contents(t, chain))
  {
    hide Inv, ChainOk, Contents, Live, LeafPiece;
    ChainLeaves(t, b, chain);
    var u, v := chain[..c], chain[c + 1..];
    forall e | 0 <= e < |chain| && e != c
      ensures chain[e] in t'.pages && t'.pages[chain[e]].Leaf? && t'.pages[chain[e]].recs == t.pages[chain[e]].recs
    {
      OtherLeaf(t, b, chain, c, ids, e);
    }
    assert Leaves(t', u) && Leaves(t', v);
    ContentsFrame(t, t', u);
    ContentsFrame(t, t', v);
    PiecesTogether(t', ids, live, cuts, |ids|);
    assert ids[..|ids|] == ids && live[..|live|] == live;
    ContentsConcat(t', u, ids);
    ContentsConcat(t', u + ids, v);
    ContentsAround(t, chain, c);
    LiveMiddle(Contents(t, u), t.pages[chain[c]].recs, Contents(t, v));
  }

  lemma LiveMiddle(u: seq<Rec>, s: seq<Rec>, v: seq<Rec>)
    ensures Live(u + Live(s) + v) == Live(u + s + v)
  {
    LiveConcat(u, Live(s));
    LiveConcat(u + Live(s), v);
    LiveConcat(u, s);
    LiveConcat(u + s, v);
    LiveTwice(s);
  }
}
