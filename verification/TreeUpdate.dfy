/** One leaf gets a new or a changed record (src/core/LeafPage.cpp:222-303). */
module TreeUpdate {
  import opened KeyOrder
  import opened GreedySplit
  import opened PageIds
  import opened Pages
  import opened Search
  import opened LeafCuts
  import opened TreeInv
  import opened TreeSplit
  import opened TreePieces
  import opened LeafChain
  import opened Ranges
  import opened SplitSound
  import opened SettleOrder
  import opened TreeState

  /** A record that can stand in a leaf. */
  predicate RecOk(x: Rec, unique: bool) {
    RecFit(x, MAX_LEAF) && (unique ==> x.key.val == 0.0)
  }

  /** The records with `x` at position `pos`, in place of the record there if `over`. */
  function Put(s: seq<Rec>, pos: nat, over: bool, x: Rec): seq<Rec>
    requires if over then pos < |s| else pos <= |s|
  {
    s[..pos] + [x] + s[if over then pos + 1 else pos..]
  }

  /** Position `pos` is where `x` belongs; `over`: a record with its key is there. */
  ghost predicate Place(s: seq<Rec>, pos: nat, over: bool, x: Rec) {
    && IsLowerBound(s, ByRecord(x.key), pos)
    && (over <==> pos < |s| && s[pos].key == x.key)
  }

  lemma PutOk(s: seq<Rec>, pos: nat, over: bool, x: Rec, r: Range, unique: bool)
    requires RecsOk(s, r, unique) && Place(s, pos, over, x) && RecOk(x, unique) && In(x.key, r)
    ensures RecsOk(Put(s, pos, over, x), r, unique)
  {
    var u := Put(s, pos, over, x);
    var d := if over then 0 else 1;
    forall j | 0 <= j < |u| ensures u[j] == if j < pos then s[j] else if j == pos then x else s[j - d] {
    }
    forall i, j | 0 <= i < j < |u| ensures Lt(u[i].key, u[j].key) {
      if j == pos { assert Before(s[i].key, ByRecord(x.key)); }
      else if i == pos { assert !Before(s[j - d].key, ByRecord(x.key)); if !over { assert s[pos].key != x.key; } }
    }
  }

  lemma PutLens(s: seq<Rec>, pos: nat, over: bool, x: Rec)
    requires if over then pos < |s| else pos <= |s|
    ensures Sum(Comms(Put(s, pos, over, x))) == Sum(Comms(s)) + x.comm - (if over then s[pos].comm else 0)
    ensures Sum(Temps(Put(s, pos, over, x))) == Sum(Temps(s)) + x.temp - (if over then s[pos].temp else 0)
  {
    var v := s[if over then pos + 1 else pos..];
    LensOfParts(s[..pos], [x], v);
    if over {
      LensOfParts(s[..pos], [s[pos]], v);
      assert s == s[..pos] + [s[pos]] + v;
      OneLen(s[pos]);
    } else {
      LensOfParts(s[..pos], [], v);
      assert s == s[..pos] + [] + v;
    }
    OneLen(x);
  }

  lemma OneLen(x: Rec)
    ensures Sum(Comms([x])) == x.comm && Sum(Temps([x])) == x.temp
  {
    assert Part(Comms([x]), 0, 1) == Part(Comms([x]), 0, 0) + x.comm;
    assert Part(Temps([x]), 0, 1) == Part(Temps([x]), 0, 0) + x.temp;
  }

  lemma LensOfParts(u: seq<Rec>, s: seq<Rec>, v: seq<Rec>)
    ensures Sum(Comms(u + s + v)) == Sum(Comms(u)) + Sum(Comms(s)) + Sum(Comms(v))
    ensures Sum(Temps(u + s + v)) == Sum(Temps(u)) + Sum(Temps(s)) + Sum(Temps(v))
  {
    assert Comms(u + s + v) == Comms(u) + Comms(s) + Comms(v);
    assert Temps(u + s + v) == Temps(u) + Temps(s) + Temps(v);
    SumConcat(Comms(u) + Comms(s), Comms(v));
    SumConcat(Comms(u), Comms(s));
    SumConcat(Temps(u) + Temps(s), Temps(v));
    SumConcat(Temps(u), Temps(s));
  }

  // ---------- the tree ----------

  function WithRecs(p: Page, s: seq<Rec>, comm: int, temp: int): Page
    requires p.Leaf?
  {
    p.(recs := s, comm := comm, temp := temp)
  }

  function PutLeaf(t: Tree, p: PageId, s: seq<Rec>, comm: int, temp: int): Tree
    requires p in t.pages && t.pages[p].Leaf?
  {
    t.(pages := t.pages[p := WithRecs(t.pages[p], s, comm, temp)])
  }

  lemma PutInv(t: Tree, b: Bounds, p: PageId, s: seq<Rec>, comm: int, temp: int)
    requires Inv(t, b) && p in t.pages && t.pages[p].Leaf? && p in b
    requires RecsOk(s, b[p], t.unique)
    ensures Inv(PutLeaf(t, p, s, comm, temp), b)
  {
    hide RecsOk, EntriesOk, ELens;
    var t' := PutLeaf(t, p, s, comm, temp);
    forall x | x in t'.pages ensures PageOk(t', b, x) {
      assert PageOk(t, b, x);
      if t.pages[x].Branch? {
        forall i | 0 <= i < |t.pages[x].entries| ensures KidOk(t', b, x, i) {
          Kid(t, b, x, i);
        }
      }
      if x != t.root {
        var q, i := Up(t, b, x);
        assert t'.pages[q].entries[i].child == x;
      }
    }
  }

  lemma PutChain(t: Tree, b: Bounds, chain: seq<PageId>, p: PageId, s: seq<Rec>, comm: int, temp: int)
    requires ChainOk(t, b, chain) && p in t.pages && t.pages[p].Leaf?
    ensures ChainOk(PutLeaf(t, p, s, comm, temp), b, chain)
  {
    var t' := PutLeaf(t, p, s, comm, temp);
    forall c | 0 <= c < |chain| ensures Linked(t', chain, c) &&
        (c < |chain| - 1 ==> b[chain[c]].hi == b[chain[c + 1]].lo) {
      assert Linked(t, chain, c);
    }
  }

  lemma SoundPut(t: Tree, b: Bounds, chain: seq<PageId>, queue: set<PageId>, level: nat, rs: seq<IndexRange>,
                 p: PageId, s: seq<Rec>, comm: int, temp: int)
    requires Sound(t, b, chain, queue, level, rs) && p in t.pages && t.pages[p].Leaf? && p in b
    requires RecsOk(s, b[p], t.unique)
    ensures Sound(PutLeaf(t, p, s, comm, temp), b, chain, queue + {p}, level, rs)
  {
    hide Inv, ChainOk, RecsOk, RangesOk;
    PutInv(t, b, p, s, comm, temp);
    PutChain(t, b, chain, p, s, comm, temp);
    RangesKept(t, b, PutLeaf(t, p, s, comm, temp), b, level, rs);
  }

  // ---------- the records ----------

  /** What stays of the leaf's record sequence. */
  lemma PutMembers(s: seq<Rec>, pos: nat, over: bool, x: Rec, y: Rec)
    requires SortedRecs(s) && Place(s, pos, over, x)
    ensures y in Live(Put(s, pos, over, x)) <==>
            (y in Live(s) && y.key != x.key) || (y == AfterRelease(x) && !x.gone)
  {
    hide Live, SortedRecs;
    var v := s[if over then pos + 1 else pos..];
    var w := if over then [s[pos]] else [];
    KeyNotIn(s, pos, over, x, y);
    assert s == s[..pos] + w + v;
    LiveParts(s[..pos], w, v, y);
    LiveParts(s[..pos], [x], v, y);
    LiveOne(x);
    if over { LiveOne(s[pos]); } else { LiveHas(w, y); }
  }

  lemma LiveOne(x: Rec)
    ensures Live([x]) == if x.gone then [] else [AfterRelease(x)]
  {
    assert [x][..0] == [];
  }

  lemma LiveParts(u: seq<Rec>, w: seq<Rec>, v: seq<Rec>, y: Rec)
    ensures y in Live(u + w + v) <==> y in Live(u) || y in Live(w) || y in Live(v)
  {
    hide Live;
    LiveConcat(u + w, v);
    LiveConcat(u, w);
  }

  lemma KeyNotIn(s: seq<Rec>, pos: nat, over: bool, x: Rec, y: Rec)
    requires SortedRecs(s) && Place(s, pos, over, x)
    ensures y in Live(s[..pos]) || y in Live(s[if over then pos + 1 else pos..]) ==> y.key != x.key
  {
    var a, v := s[..pos], s[if over then pos + 1 else pos..];
    forall z | z in a || z in v ensures z.key != x.key {
      if z in a {
        var j :| 0 <= j < pos && s[j] == z;
        assert Before(s[j].key, ByRecord(x.key));
      } else {
        var j :| 0 <= j < |v| && v[j] == z;
        if over { assert Lt(s[pos].key, s[pos + 1 + j].key); }
        else { assert !Before(s[pos + j].key, ByRecord(x.key)); if j > 0 { assert Lt(s[pos].key, s[pos + j].key); } }
      }
    }
    LiveHas(a, y);
    LiveHas(v, y);
  }

  /** A key that belongs into a leaf's range is in no other leaf. */
  lemma OnlyHere(t: Tree, b: Bounds, chain: seq<PageId>, c: nat, x: Rec, k: Key)
    requires Inv(t, b) && ChainOk(t, b, chain) && c < |chain| && In(k, b[chain[c]])
    ensures Leaves(t, chain[..c]) && Leaves(t, chain[c + 1..])
    ensures x in Contents(t, chain[..c]) || x in Contents(t, chain[c + 1..]) ==> x.key != k
  {
    hide Inv, Contents;
    ChainLeaves(t, b, chain);
    if x.key == k && x in Contents(t, chain[..c]) {
      var d, m := ContentsFrom(t, chain[..c], x);
      NotInBoth(t, b, chain, c, d, m, k);
    } else if x.key == k && x in Contents(t, chain[c + 1..]) {
      var d, m := ContentsFrom(t, chain[c + 1..], x);
      NotInBoth(t, b, chain, c, c + 1 + d, m, k);
    }
  }

  lemma NotInBoth(t: Tree, b: Bounds, chain: seq<PageId>, c: nat, d: nat, m: nat, k: Key)
    requires Inv(t, b) && ChainOk(t, b, chain) && c < |chain| && d < |chain| && c != d
    requires In(k, b[chain[c]]) && m < |t.pages[chain[d]].recs|
    ensures t.pages[chain[d]].recs[m].key != k
  {
    if t.pages[chain[d]].recs[m].key == k {
      assert PageOk(t, b, chain[d]);
      InTargets(k, b[chain[c]]);
      InTargets(k, b[chain[d]]);
      TargetUnique(t, b, chain[c], chain[d], ByRecord(k));
      if c < d { ChainDistinct(t, b, chain, c, d); } else { ChainDistinct(t, b, chain, d, c); }
    }
  }

  /** What the tree stores, seen from one leaf. */
  lemma StoredAround(t: Tree, b: Bounds, chain: seq<PageId>, c: nat, x: Rec)
    requires ChainOk(t, b, chain) && c < |chain|
    ensures Leaves(t, chain[..c]) && Leaves(t, chain[c + 1..]) && Leaves(t, chain)
    ensures x in Stored(t, chain) <==>
              x in Live(Contents(t, chain[..c])) || x in Live(t.pages[chain[c]].recs) ||
              x in Live(Contents(t, chain[c + 1..]))
  {
    hide ChainOk, Contents, Live;
    ChainLeaves(t, b, chain);
    ContentsAround(t, chain, c);
    var u, s, v := Contents(t, chain[..c]), t.pages[chain[c]].recs, Contents(t, chain[c + 1..]);
    LiveConcat(u + s, v);
    LiveConcat(u, s);
  }

  lemma PutStored(t: Tree, b: Bounds, chain: seq<PageId>, c: nat, pos: nat, over: bool, x: Rec, comm: int, temp: int,
      y: Rec)
    requires Inv(t, b) && ChainOk(t, b, chain) && c < |chain| && In(x.key, b[chain[c]])
    requires Place(t.pages[chain[c]].recs, pos, over, x)
    requires ChainOk(PutLeaf(t, chain[c], Put(t.pages[chain[c]].recs, pos, over, x), comm, temp), b, chain)
    ensures y in Stored(PutLeaf(t, chain[c], Put(t.pages[chain[c]].recs, pos, over, x), comm, temp), chain)
            <==> (y in Stored(t, chain) && y.key != x.key) || (y == AfterRelease(x) && !x.gone)
  {
    var p := chain[c];
    var t' := PutLeaf(t, p, Put(t.pages[p].recs, pos, over, x), comm, temp);
    hide Inv, ChainOk, Contents, Live, Stored, Put, Place;
    ChainLeaves(t, b, chain);
    ChainLeaves(t', b, chain);
    StoredAround(t, b, chain, c, y);
    StoredAround(t', b, chain, c, y);
    LiveElsewhere(t, b, chain, c, y, x.key);
    LeafSorted(t, b, p);
    PutMembers(t.pages[p].recs, pos, over, x, y);
    SidesKept(t, b, chain, c, t');
  }

  lemma LiveElsewhere(t: Tree, b: Bounds, chain: seq<PageId>, c: nat, y: Rec, k: Key)
    requires Inv(t, b) && ChainOk(t, b, chain) && c < |chain| && In(k, b[chain[c]])
    ensures Leaves(t, chain[..c]) && Leaves(t, chain[c + 1..])
    ensures y in Live(Contents(t, chain[..c])) || y in Live(Contents(t, chain[c + 1..])) ==> y.key != k
  {
    hide Inv, ChainOk, Contents, Live, In;
    ChainLeaves(t, b, chain);
    LiveHas(Contents(t, chain[..c]), y);
    LiveHas(Contents(t, chain[c + 1..]), y);
    forall z | AfterRelease(z) == y ensures
        z in Contents(t, chain[..c]) || z in Contents(t, chain[c + 1..]) ==> y.key != k {
      OnlyHere(t, b, chain, c, z, k);
    }
  }

  /** Records that leave the same when they are released store the same. */
  lemma StoredSame(t: Tree, b: Bounds, chain: seq<PageId>, c: nat, s: seq<Rec>, comm: int, temp: int)
    requires Inv(t, b) && ChainOk(t, b, chain) && c < |chain|
    requires ChainOk(PutLeaf(t, chain[c], s, comm, temp), b, chain) && Live(s) == Live(t.pages[chain[c]].recs)
    ensures Stored(PutLeaf(t, chain[c], s, comm, temp), chain) == Stored(t, chain)
  {
    var t' := PutLeaf(t, chain[c], s, comm, temp);
    hide Inv, ChainOk, Contents, Live;
    ChainLeaves(t, b, chain);
    ChainLeaves(t', b, chain);
    SidesKept(t, b, chain, c, t');
    ContentsAround(t, chain, c);
    ContentsAround(t', chain, c);
    var u, r, v := Contents(t, chain[..c]), t.pages[chain[c]].recs, Contents(t, chain[c + 1..]);
    LiveConcat(u + r, v);
    LiveConcat(u, r);
    LiveConcat(u + s, v);
    LiveConcat(u, s);
  }

  lemma LeafSorted(t: Tree, b: Bounds, p: PageId)
    requires Inv(t, b) && p in t.pages && t.pages[p].Leaf?
    ensures p in b && SortedRecs(t.pages[p].recs) && RecsOk(t.pages[p].recs, b[p], t.unique)
    ensures KeysOnly(t.unique, t.pages[p].recs)
  {
    assert PageOk(t, b, p);
  }

  lemma SidesKept(t: Tree, b: Bounds, chain: seq<PageId>, c: nat, t': Tree)
    requires Inv(t, b) && ChainOk(t, b, chain) && c < |chain|
    requires Leaves(t', chain) && forall x :: x in t.pages && x != chain[c] ==>
        x in t'.pages && t'.pages[x] == t.pages[x]
    ensures Leaves(t, chain[..c]) && Leaves(t, chain[c + 1..]) && Leaves(t', chain[..c]) && Leaves(t', chain[c + 1..])
    ensures Contents(t', chain[..c]) == Contents(t, chain[..c])
    ensures Contents(t', chain[c + 1..]) == Contents(t, chain[c + 1..])
  {
    hide Inv, Contents;
    forall e | 0 <= e < |chain| && e != c ensures chain[e] != chain[c] {
      if e < c { ChainDistinct(t, b, chain, e, c); } else { ChainDistinct(t, b, chain, c, e); }
    }
    ContentsFrame(t, t', chain[..c]);
    ContentsFrame(t, t', chain[c + 1..]);
  }

  /** The one record with the key that the tree stores is the one in its leaf, if that does not only wait to be
      dropped. */
  lemma HeldIff(t: Tree, b: Bounds, chain: seq<PageId>, c: nat, pos: nat, over: bool, x: Rec, y: Rec)
    requires Inv(t, b) && ChainOk(t, b, chain) && c < |chain| && In(x.key, b[chain[c]])
    requires Place(t.pages[chain[c]].recs, pos, over, x)
    ensures y in Stored(t, chain) && y.key == x.key
            <==> over && !t.pages[chain[c]].recs[pos].gone && y == AfterRelease(t.pages[chain[c]].recs[pos])
  {
    var s := t.pages[chain[c]].recs;
    hide Inv, ChainOk, Contents, Live, Stored, In;
    LeafSorted(t, b, chain[c]);
    StoredAround(t, b, chain, c, y);
    LiveElsewhere(t, b, chain, c, y, x.key);
    LiveHas(s, y);
    forall z | z in s && z.key == x.key ensures over && z == s[pos] {
      var j :| 0 <= j < |s| && s[j] == z;
      LowerBoundIs(s, x.key, pos, j);
    }
  }

  lemma LowerBoundIs(s: seq<Rec>, k: Key, pos: nat, j: nat)
    requires SortedRecs(s) && IsLowerBound(s, ByRecord(k), pos) && j < |s| && s[j].key == k
    ensures j == pos
  {
    assert Before(s[j].key, ByRecord(k)) <==> j < pos;
    assert !Before(s[pos].key, ByRecord(k));
  }

  // ---------- one leaf changed ----------

  /** Page lengths are unsigned 32-bit numbers: what would fall below zero wraps around. */
  function Wrapped(n: int): int {
    if n < 0 then n % 0x1_0000_0000 else n
  }

  /** The leaf after LeafPage::ReleaseLock (src/core/LeafPage.cpp:711-718) on a record that is due: both lengths
      follow the record. */
  function ReleasedPage(top: Page, pos: nat): Page
    requires top.Leaf? && pos < |top.recs|
  {
    var x := top.recs[pos];
    if x.due then
      WithRecs(top, Put(top.recs, pos, true, AfterRelease(x)), Wrapped(top.comm + x.clen - x.comm),
               Wrapped(top.temp + AfterRelease(x).temp - x.temp))
    else top
  }

  /** The new record on top of the one it covers: that one's versions stay behind it, unless it is erased. */
  function Covering(lr: Rec, s: seq<Rec>, pos: nat, over: bool): Rec
    requires over ==> pos < |s|
  {
    var n := if over && !s[pos].mark then s[pos].clen else 0;
    lr.(clen := n, comm := n)
  }

  /** The leaf after LeafPage::UpdateAction has put a record in place: only the temporary length is charged. */
  function PutPage(top: Page, pos: nat, over: bool, lr: Rec): Page
    requires top.Leaf? && if over then pos < |top.recs| else pos <= |top.recs|
  {
    WithRecs(top, Put(top.recs, pos, over, Covering(lr, top.recs, pos, over)), top.comm,
             Wrapped(top.temp + lr.temp - (if over then top.recs[pos].temp else 0)))
  }

  /** The leaf after an UPDATE in place on the primary index (src/statement/UpdateStatement.cpp:307-308): no length
      is charged. */
  function ReplacedPage(top: Page, pos: nat, lr: Rec): Page
    requires top.Leaf? && pos < |top.recs|
  {
    WithRecs(top, Put(top.recs, pos, true, Covering(lr, top.recs, pos, true)), top.comm, top.temp)
  }

  /** The leaf after statements on a record have ended: it is due, and its lengths stay until its release. */
  function EndedPage(top: Page, pos: nat, x: Rec): Page
    requires top.Leaf? && pos < |top.recs|
  {
    WithRecs(top, Put(top.recs, pos, true, EndedRec(top.recs[pos], x)), top.comm, top.temp)
  }

  /** The record that its release will turn into x. */
  function EndedRec(was: Rec, x: Rec): Rec {
    x.(comm := was.comm, temp := was.temp, due := true)
  }

  /** The leaf after SaveRecords (src/core/LeafPage.cpp:75-131): all that is due is released, what waits to be dropped
      is erased, and both lengths are counted anew. */
  function SavedPage(top: Page): Page
    requires top.Leaf?
  {
    WithRecs(top, Live(top.recs), Sum(CLens(Live(top.recs))), Sum(TLens(Live(top.recs))))
  }

  function WithLeaf(t: Tree, p: PageId, page: Page): Tree {
    t.(pages := t.pages[p := page])
  }

  // ---------- what a changed leaf does to the lengths ----------

  lemma ReleasedWeighed(top: Page, pos: nat, lean: bool)
    requires top.Leaf? && pos < |top.recs| && WeighedPage(top, lean)
    ensures WeighedPage(ReleasedPage(top, pos), lean)
  {
    hide Put, Comms, Temps;
    PutLens(top.recs, pos, true, AfterRelease(top.recs[pos]));
  }

  lemma PutWeighed(top: Page, pos: nat, over: bool, lr: Rec, lean: bool)
    requires top.Leaf? && (if over then pos < |top.recs| else pos <= |top.recs|) && WeighedPage(top, lean)
    requires over ==> top.recs[pos].comm == top.recs[pos].clen
    requires lean && over ==> !top.recs[pos].mark || top.recs[pos].clen == 0
    ensures WeighedPage(PutPage(top, pos, over, lr), lean)
  {
    hide Put, Comms, Temps;
    PutLens(top.recs, pos, over, Covering(lr, top.recs, pos, over));
  }

  lemma EndedWeighed(top: Page, pos: nat, x: Rec, lean: bool)
    requires top.Leaf? && pos < |top.recs| && WeighedPage(top, lean)
    ensures WeighedPage(EndedPage(top, pos, x), lean)
  {
    hide Put, Comms, Temps;
    PutLens(top.recs, pos, true, EndedRec(top.recs[pos], x));
  }

  lemma SavedWeighed(top: Page)
    requires top.Leaf? && AllFit(top.recs, MAX_LEAF)
    ensures WeighedPage(SavedPage(top), true)
  {
    var s := Live(top.recs);
    FitLive(top.recs, MAX_LEAF);
    forall i | 0 <= i < |s| ensures !s[i].gone && s[i] == AfterRelease(s[i]) { assert s[i] in s; }
    CountsCover(s, |s|);
  }

  /** By how much the recorded temporary length exceeds what the records are charged. */
  function Surplus(p: Page): int
    requires p.Leaf?
  {
    p.temp - Sum(Temps(p.recs))
  }

  /** An UPDATE in place keeps the lengths right exactly when old and new version are equally long. */
  lemma ReplacedSurplus(top: Page, pos: nat, lr: Rec)
    requires top.Leaf? && pos < |top.recs|
    ensures Surplus(ReplacedPage(top, pos, lr)) == Surplus(top) + top.recs[pos].temp - lr.temp
    ensures Surplus(ReplacedPage(top, pos, lr)) == Surplus(top) <==> lr.temp == top.recs[pos].temp
  {
    hide Put, Temps;
    PutLens(top.recs, pos, true, Covering(lr, top.recs, pos, true));
  }

  /** Everything else keeps them as right as they were, while they cover the records: inserting, deleting, the end
      of statements and the release. */
  lemma SurplusKept(top: Page, pos: nat, over: bool, lr: Rec, x: Rec)
    requires top.Leaf? && (if over then pos < |top.recs| else pos <= |top.recs|) && Surplus(top) >= 0
    ensures Surplus(PutPage(top, pos, over, lr)) == Surplus(top)
    ensures over ==> Surplus(ReleasedPage(top, pos)) == Surplus(top) == Surplus(EndedPage(top, pos, x))
  {
    hide Put, Temps;
    PutLens(top.recs, pos, over, Covering(lr, top.recs, pos, over));
    if over {
      PutLens(top.recs, pos, true, AfterRelease(top.recs[pos]));
      PutLens(top.recs, pos, true, EndedRec(top.recs[pos], x));
    }
  }

  lemma ReplacedWeighed(top: Page, pos: nat, lr: Rec, lean: bool)
    requires top.Leaf? && pos < |top.recs| && WeighedPage(top, lean) && lr.temp == top.recs[pos].temp
    requires !top.recs[pos].mark && top.recs[pos].comm == top.recs[pos].clen
    ensures WeighedPage(ReplacedPage(top, pos, lr), lean)
  {
    hide Put, Comms, Temps;
    PutLens(top.recs, pos, true, Covering(lr, top.recs, pos, true));
  }

  lemma WeighedWith(t: Tree, p: PageId, page: Page, lean: bool)
    requires Weighed(t, lean) && WeighedPage(page, lean)
    ensures Weighed(WithLeaf(t, p, page), lean)
  {
    hide WeighedPage;
  }

  lemma WeighedAt(t: Tree, p: PageId, lean: bool)
    requires Weighed(t, lean) && p in t.pages
    ensures WeighedPage(t.pages[p], lean)
  {
  }

  lemma WholeWith(t: Tree, p: PageId, page: Page)
    requires Whole(t) && page.Leaf? && page.recs != [] && forall x :: x in page.recs ==> !x.gone
    ensures Whole(WithLeaf(t, p, page))
  {
  }

  /** A leaf in which one record is put in place of another or added stays whole if that record stays. */
  lemma PutWhole(top: Page, pos: nat, over: bool, x: Rec)
    requires top.Leaf? && (if over then pos < |top.recs| else pos <= |top.recs|) && WholePage(top) && !x.gone
    ensures Put(top.recs, pos, over, x) != [] && forall y :: y in Put(top.recs, pos, over, x) ==> !y.gone
  {
    forall y | y in Put(top.recs, pos, over, x) ensures !y.gone {
      assert y == x || y in top.recs;
    }
  }

  // ---------- what it does to the tree ----------

  /** Putting any record x at its place in its leaf. */
  lemma PlacedSound(t: Tree, b: Bounds, chain: seq<PageId>, queue: set<PageId>, level: nat, rs: seq<IndexRange>,
                    c: nat, pos: nat, over: bool, x: Rec, comm: int, temp: int)
    requires Sound(t, b, chain, queue, level, rs) && c < |chain|
    requires In(x.key, b[chain[c]]) && RecOk(x, t.unique) && Place(t.pages[chain[c]].recs, pos, over, x)
    ensures var s := Put(t.pages[chain[c]].recs, pos, over, x); var t' := PutLeaf(t, chain[c], s, comm, temp);
      && Sound(t', b, chain, queue + {chain[c]}, level, rs)
      && (forall y :: y in Stored(t', chain) <==>
            (y in Stored(t, chain) && y.key != x.key) || (y == AfterRelease(x) && !x.gone))
  {
    var p := chain[c];
    var s := Put(t.pages[p].recs, pos, over, x);
    LeafSorted(t, b, p);
    PutOk(t.pages[p].recs, pos, over, x, b[p], t.unique);
    hide RecOk, RecsOk;
    SoundPut(t, b, chain, queue, level, rs, p, s, comm, temp);
    hide Inv, ChainOk, QueueOk, RangesOk, Contents, Live, Stored, Put, Place;
    forall y ensures y in Stored(PutLeaf(t, p, s, comm, temp), chain) <==>
        (y in Stored(t, chain) && y.key != x.key) || (y == AfterRelease(x) && !x.gone) {
      PutStored(t, b, chain, c, pos, over, x, comm, temp, y);
    }
  }

  /** Any change of a leaf that leaves the same once all is released. */
  lemma SameSound(t: Tree, b: Bounds, chain: seq<PageId>, queue: set<PageId>, level: nat, rs: seq<IndexRange>,
                  c: nat, s: seq<Rec>, comm: int, temp: int)
    requires Sound(t, b, chain, queue, level, rs) && c < |chain|
    requires RecsOk(s, b[chain[c]], t.unique) && Live(s) == Live(t.pages[chain[c]].recs)
    ensures var t' := PutLeaf(t, chain[c], s, comm, temp);
      Sound(t', b, chain, queue + {chain[c]}, level, rs) && Stored(t', chain) == Stored(t, chain)
  {
    hide RecsOk, Live, Stored;
    LeafSorted(t, b, chain[c]);
    SoundPut(t, b, chain, queue, level, rs, chain[c], s, comm, temp);
    StoredSame(t, b, chain, c, s, comm, temp);
  }

  lemma ReleasedOk(s: seq<Rec>, pos: nat, r: Range, unique: bool)
    requires RecsOk(s, r, unique) && pos < |s|
    ensures Put(s, pos, true, AfterRelease(s[pos])) == s[pos := AfterRelease(s[pos])]
    ensures RecsOk(s[pos := AfterRelease(s[pos])], r, unique) && Live(s[pos := AfterRelease(s[pos])]) == Live(s)
  {
    var x := AfterRelease(s[pos]);
    assert x.key == s[pos].key;
    LiveReleased(s, pos);
    FitReleased(s, pos, MAX_LEAF);
    hide Live, AfterRelease, RecFit;
    SameKeysOk(s, s[pos := x], r, unique);
  }

  /** Only the keys matter for the order and the range. */
  lemma SameKeysOk(s: seq<Rec>, u: seq<Rec>, r: Range, unique: bool)
    requires RecsOk(s, r, unique) && AllFit(u, MAX_LEAF) && |u| == |s|
    requires forall i :: 0 <= i < |s| ==> u[i].key == s[i].key
    ensures RecsOk(u, r, unique)
  {
    hide In, AllFit;
  }

  /** Releasing a record. */
  lemma ReleasedSound(t: Tree, b: Bounds, chain: seq<PageId>, queue: set<PageId>, level: nat, rs: seq<IndexRange>,
                      c: nat, pos: nat)
    requires Sound(t, b, chain, queue, level, rs) && c < |chain|
    requires chain[c] in t.pages && t.pages[chain[c]].Leaf? && pos < |t.pages[chain[c]].recs|
    ensures var t' := WithLeaf(t, chain[c], ReleasedPage(t.pages[chain[c]], pos));
      && Sound(t', b, chain, queue + {chain[c]}, level, rs) && Stored(t', chain) == Stored(t, chain)
      && LengthsKept(t, t') && (Whole(t) ==> Whole(t'))
  {
    var p, top := chain[c], t.pages[chain[c]];
    var y := ReleasedPage(top, pos);
    LeafSorted(t, b, p);
    ReleasedOk(top.recs, pos, b[p], t.unique);
    if !top.recs[pos].due {
      LiveTwice(top.recs);
      assert WithLeaf(t, p, top) == t == PutLeaf(t, p, top.recs, top.comm, top.temp);
    }
    forall lean | Weighed(t, lean) ensures Weighed(WithLeaf(t, p, y), lean) {
      ReleasedWeighed(top, pos, lean);
      WeighedWith(t, p, y, lean);
    }
    if Whole(t) {
      PutWhole(top, pos, true, AfterRelease(top.recs[pos]));
      WholeWith(t, p, y);
    }
    hide Sound, Put, Live, Stored, Weighed, Whole, WeighedPage;
    SameSound(t, b, chain, queue, level, rs, c, y.recs, y.comm, y.temp);
  }

  /** Putting a new record in place, over one that has been released. */
  lemma PutSound(t: Tree, b: Bounds, chain: seq<PageId>, queue: set<PageId>, level: nat, rs: seq<IndexRange>,
                 c: nat, pos: nat, over: bool, lr: Rec)
    requires Sound(t, b, chain, queue, level, rs) && c < |chain| && In(lr.key, b[chain[c]])
    requires RecOk(lr, t.unique) && !lr.gone && !lr.due && Place(t.pages[chain[c]].recs, pos, over, lr)
    requires over ==> !t.pages[chain[c]].recs[pos].due
    ensures var top := t.pages[chain[c]]; var x := Covering(lr, top.recs, pos, over);
      var t' := WithLeaf(t, chain[c], PutPage(top, pos, over, lr));
      && Sound(t', b, chain, queue + {chain[c]}, level, rs)
      && (forall y :: y in Stored(t', chain) <==> (y in Stored(t, chain) && y.key != lr.key) || y == x)
      && (forall lean :: Weighed(t, lean) && (lean && over ==> top.recs[pos].gone || !top.recs[pos].mark) ==>
            Weighed(t', lean))
      && (Whole(t) ==> Whole(t'))
  {
    var p, top := chain[c], t.pages[chain[c]];
    var x := Covering(lr, top.recs, pos, over);
    LeafSorted(t, b, p);
    CoveringOk(lr, top.recs, b[p], t.unique, pos, over);
    var y := PutPage(top, pos, over, lr);
    hide Sound, RecOk, Put, Live, Stored, In, Weighed, Whole, WeighedPage;
    PlacedSound(t, b, chain, queue, level, rs, c, pos, over, x, y.comm, y.temp);
    forall lean | Weighed(t, lean) && (lean && over ==> top.recs[pos].gone || !top.recs[pos].mark)
      ensures Weighed(WithLeaf(t, p, y), lean)
    {
      WeighedAt(t, p, lean);
      PutWeighed(top, pos, over, lr, lean);
      WeighedWith(t, p, y, lean);
    }
    if Whole(t) {
      WholeAt(t, p);
      PutWhole(top, pos, over, x);
      WholeWith(t, p, y);
    }
  }

  lemma WholeAt(t: Tree, p: PageId)
    requires Whole(t) && p in t.pages
    ensures WholePage(t.pages[p])
  {
  }

  lemma CoveringOk(lr: Rec, s: seq<Rec>, r: Range, unique: bool, pos: nat, over: bool)
    requires RecOk(lr, unique) && !lr.gone && !lr.due && RecsOk(s, r, unique) && (over ==> pos < |s|)
    ensures var x := Covering(lr, s, pos, over); RecOk(x, unique) && x.key == lr.key && !x.gone && x == AfterRelease(x)
    ensures over && !s[pos].due ==> s[pos].comm == s[pos].clen && (s[pos].gone ==> s[pos].clen == 0)
  {
    if over { assert RecFit(s[pos], MAX_LEAF); }
  }

  /** The end of statements on a record. */
  lemma EndedSound(t: Tree, b: Bounds, chain: seq<PageId>, queue: set<PageId>, level: nat, rs: seq<IndexRange>,
                   c: nat, pos: nat, x: Rec)
    requires Sound(t, b, chain, queue, level, rs) && c < |chain| && In(x.key, b[chain[c]])
    requires RecOk(x, t.unique) && !x.due && Place(t.pages[chain[c]].recs, pos, true, x)
    ensures var t' := WithLeaf(t, chain[c], EndedPage(t.pages[chain[c]], pos, x));
      && Sound(t', b, chain, queue + {chain[c]}, level, rs)
      && (forall y :: y in Stored(t', chain) <==> (y in Stored(t, chain) && y.key != x.key) || (y == x && !x.gone))
      && LengthsKept(t, t')
      && (Whole(t) && !x.gone ==> Whole(t'))
  {
    var p, top := chain[c], t.pages[chain[c]];
    var y, z := EndedPage(top, pos, x), EndedRec(top.recs[pos], x);
    assert RecOk(z, t.unique) && AfterRelease(z) == x;
    hide Sound, RecOk, Put, Live, Stored, In, Weighed, Whole, WeighedPage, EndedRec;
    PlacedSound(t, b, chain, queue, level, rs, c, pos, true, z, y.comm, y.temp);
    forall lean | Weighed(t, lean) ensures Weighed(WithLeaf(t, p, y), lean) {
      WeighedAt(t, p, lean);
      EndedWeighed(top, pos, x, lean);
      WeighedWith(t, p, y, lean);
    }
    if Whole(t) && !x.gone {
      WholeAt(t, p);
      PutWhole(top, pos, true, z);
      WholeWith(t, p, y);
    }
  }

  /** An UPDATE in place. */
  lemma ReplacedSound(t: Tree, b: Bounds, chain: seq<PageId>, queue: set<PageId>, level: nat, rs: seq<IndexRange>,
                      c: nat, pos: nat, lr: Rec)
    requires Sound(t, b, chain, queue, level, rs) && c < |chain| && In(lr.key, b[chain[c]])
    requires RecOk(lr, t.unique) && !lr.gone && !lr.due && Place(t.pages[chain[c]].recs, pos, true, lr)
    requires !t.pages[chain[c]].recs[pos].due && !t.pages[chain[c]].recs[pos].mark
    ensures var top := t.pages[chain[c]]; var x := Covering(lr, top.recs, pos, true);
      var t' := WithLeaf(t, chain[c], ReplacedPage(top, pos, lr));
      && Sound(t', b, chain, queue + {chain[c]}, level, rs)
      && (forall y :: y in Stored(t', chain) <==> (y in Stored(t, chain) && y.key != lr.key) || y == x)
      && (lr.temp == top.recs[pos].temp ==> LengthsKept(t, t'))
      && (Whole(t) ==> Whole(t'))
  {
    var p, top := chain[c], t.pages[chain[c]];
    var x := Covering(lr, top.recs, pos, true);
    LeafSorted(t, b, p);
    CoveringOk(lr, top.recs, b[p], t.unique, pos, true);
    var y := ReplacedPage(top, pos, lr);
    hide Sound, RecOk, Put, Live, Stored, In, Weighed, Whole, WeighedPage;
    PlacedSound(t, b, chain, queue, level, rs, c, pos, true, x, y.comm, y.temp);
    forall lean | Weighed(t, lean) && lr.temp == top.recs[pos].temp ensures Weighed(WithLeaf(t, p, y), lean) {
      WeighedAt(t, p, lean);
      ReplacedWeighed(top, pos, lr, lean);
      WeighedWith(t, p, y, lean);
    }
    if Whole(t) {
      WholeAt(t, p);
      PutWhole(top, pos, true, x);
      WholeWith(t, p, y);
    }
  }

  /** A saved leaf can always be split. */
  lemma SavedNotStuck(top: Page)
    requires top.Leaf?
    ensures !(IsOverlength(SavedPage(top)) && Stuck(SavedPage(top)))
    ensures WholePage(SavedPage(top))
  {
    var s, y := Live(top.recs), SavedPage(top);
    forall i | 0 <= i < |s| ensures !s[i].gone && s[i] == AfterRelease(s[i]) { assert s[i] in s; }
    if s == [] {
      assert Sum(CLens(s)) == Sum(TLens(s)) == 0;
    } else {
      FreshNotStuck(y);
    }
  }

  lemma SavedLeaf(t: Tree, p: PageId, y: Page)
    requires p in t.pages && t.pages[p].Leaf? && AllFit(t.pages[p].recs, MAX_LEAF) && y == SavedPage(t.pages[p])
    ensures LengthsKept(t, WithLeaf(t, p, y)) && (Whole(t) ==> Whole(WithLeaf(t, p, y)))
    ensures AllSplittable(t) ==> AllSplittable(WithLeaf(t, p, y))
  {
    SavedWeighed(t.pages[p]);
    SavedNotStuck(t.pages[p]);
    hide WeighedPage, WholePage, Stuck, IsOverlength, SavedPage, AllFit;
  }

  lemma SavedRecs(s: seq<Rec>, r: Range, unique: bool)
    requires RecsOk(s, r, unique)
    ensures RecsOk(Live(s), r, unique) && Live(Live(s)) == Live(s)
  {
    LiveOk(s, r, unique);
    LiveTwice(s);
  }

  /** Saving a leaf. */
  lemma SavedSound(t: Tree, b: Bounds, chain: seq<PageId>, queue: set<PageId>, level: nat, rs: seq<IndexRange>, c: nat,
                   y: Page)
    requires Sound(t, b, chain, queue, level, rs) && c < |chain|
    requires chain[c] in t.pages && t.pages[chain[c]].Leaf? && y == SavedPage(t.pages[chain[c]])
    ensures var t' := WithLeaf(t, chain[c], y);
      && Sound(t', b, chain, queue + {chain[c]}, level, rs) && Stored(t', chain) == Stored(t, chain)
      && LengthsKept(t, t') && (Whole(t) ==> Whole(t')) && (AllSplittable(t) ==> AllSplittable(t'))
  {
    LeafSorted(t, b, chain[c]);
    SavedRecs(t.pages[chain[c]].recs, b[chain[c]], t.unique);
    hide Sound, Live, Stored, Whole, LengthsKept, AllSplittable;
    SavedLeaf(t, chain[c], y);
    SameSound(t, b, chain, queue, level, rs, c, y.recs, y.comm, y.temp);
  }
}
