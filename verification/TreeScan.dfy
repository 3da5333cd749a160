/** A scan over the records of the leaf chain (Statement::SacnIndex, src/statement/Statement.cpp:513-625): each record
    it passes is compared with the end of the key range and released if it is due. */
module TreeScan {
  import opened KeyOrder
  import opened PageIds
  import opened Pages
  import opened LeafCuts
  import opened Search
  import opened TreeInv
  import opened LeafChain
  import opened Ranges
  import opened TreeState
  import opened TreeUpdate

  /** A scan of the keys from `first` to `last` comes to a record without bytes: there is one at or behind the first
      key, and the scan has not passed the last key before it. */
  ghost predicate RunsIntoNull(s: seq<Rec>, first: real, last: real) {
    exists g :: 0 <= g < |s| && NullInWay(s, first, last, g)
  }

  ghost predicate NullInWay(s: seq<Rec>, first: real, last: real, g: nat)
    requires g < |s|
  {
    NoBytes(s[g]) && s[g].key.key >= first && forall j :: 0 <= j < g && s[j].key.key >= first ==> s[j].key.key <= last
  }

  /** The records after such a scan. */
  function ScannedRecs(s: seq<Rec>, first: real, last: real): (r: seq<Rec>)
    ensures |r| == |s|
  {
    seq(|s|, i requires 0 <= i < |s| => if s[i].due && first <= s[i].key.key <= last then AfterRelease(s[i]) else s[i])
  }

  /** The records when those at the positions from a up to g have been released. */
  function ScannedTo(s: seq<Rec>, a: nat, g: nat): (r: seq<Rec>)
    ensures |r| == |s|
  {
    seq(|s|, i requires 0 <= i < |s| => if s[i].due && a <= i < g then AfterRelease(s[i]) else s[i])
  }

  /** The scan has come from position a to position g. */
  ghost predicate Passed(s: seq<Rec>, first: real, last: real, a: nat, g: nat) {
    && IsLowerBound(s, ByKey(first), a) && a <= g <= |s|
    && forall j :: a <= j < g ==> !NoBytes(s[j]) && s[j].key.key <= last
  }

  lemma PassedStart(s: seq<Rec>, first: real, last: real, a: nat)
    requires IsLowerBound(s, ByKey(first), a)
    ensures Passed(s, first, last, a, a) && ScannedTo(s, a, a) == s
  {
  }

  lemma PassedNull(s: seq<Rec>, first: real, last: real, a: nat, g: nat)
    requires Passed(s, first, last, a, g) && g < |s| && NoBytes(s[g])
    ensures RunsIntoNull(s, first, last)
  {
    assert !Before(s[g].key, ByKey(first));
    forall j | 0 <= j < g && s[j].key.key >= first ensures s[j].key.key <= last {
      assert !Before(s[j].key, ByKey(first));
    }
    assert NullInWay(s, first, last, g);
  }

  lemma PassedOne(s: seq<Rec>, first: real, last: real, a: nat, g: nat)
    requires Passed(s, first, last, a, g) && g < |s| && !NoBytes(s[g]) && s[g].key.key <= last
    ensures Passed(s, first, last, a, g + 1)
    ensures ScannedTo(s, a, g)[g] == s[g]
    ensures ScannedTo(s, a, g + 1) == if s[g].due then ScannedTo(s, a, g)[g := AfterRelease(s[g])] else ScannedTo(s,
        a, g)
  {
  }

  /** At the end of the records, or at the first key behind the range. */
  lemma PassedAll(s: seq<Rec>, first: real, last: real, a: nat, g: nat)
    requires SortedRecs(s) && Passed(s, first, last, a, g) && (g < |s| ==> !NoBytes(s[g]) && s[g].key.key > last)
    ensures !RunsIntoNull(s, first, last) && ScannedTo(s, a, g) == ScannedRecs(s, first, last)
  {
    forall h | 0 <= h < |s| ensures !NullInWay(s, first, last, h) {
      assert Before(s[h].key, ByKey(first)) <==> h < a;
      if g < h { assert Before(s[g].key, ByKey(first)) <==> g < a; }
    }
    forall i | 0 <= i < |s| ensures first <= s[i].key.key <= last <==> a <= i < g {
      assert Before(s[i].key, ByKey(first)) <==> i < a;
      if g < i { assert Lt(s[g].key, s[i].key); }
    }
  }

  // ---------- the leaf chain ----------

  /** The records of a leaf within those of the chain. */
  lemma LeafWithin(t: Tree, b: Bounds, chain: seq<PageId>, c: nat, pos: nat)
    requires Inv(t, b) && ChainOk(t, b, chain) && c < |chain|
    requires chain[c] in t.pages && t.pages[chain[c]].Leaf? && pos <= |t.pages[chain[c]].recs|
    ensures Leaves(t, chain) && Leaves(t, chain[..c]) && Leaves(t, chain[..c + 1])
    ensures var g := |Contents(t, chain[..c])| + pos;
      && g <= |Contents(t, chain)|
      && (pos < |t.pages[chain[c]].recs| ==>
            g < |Contents(t, chain)| && Contents(t, chain)[g] == t.pages[chain[c]].recs[pos])
    ensures |Contents(t, chain[..c + 1])| == |Contents(t, chain[..c])| + |t.pages[chain[c]].recs|
    ensures t.pages[chain[c]].next == if c == |chain| - 1 then None else Some(chain[c + 1])
    ensures c == |chain| - 1 ==> chain[..c + 1] == chain
  {
    NextInChain(t, b, chain, c);
    hide Inv, ChainOk, Contents, Leaves;
    ChainLeaves(t, b, chain);
    ContentsAround(t, chain, c);
    ContentsOne(t, chain[c]);
    LeavesUpTo(t, chain, c);
    ContentsConcat(t, chain[..c], [chain[c]]);
    var s := t.pages[chain[c]].recs;
    if pos < |s| { Middle(Contents(t, chain[..c]), s, Contents(t, chain[c + 1..]), pos, s[pos]); }
  }

  lemma NextInChain(t: Tree, b: Bounds, chain: seq<PageId>, c: nat)
    requires ChainOk(t, b, chain) && c < |chain|
    ensures t.pages[chain[c]].next == if c == |chain| - 1 then None else Some(chain[c + 1])
  {
    assert Linked(t, chain, c);
  }

  lemma LeavesUpTo(t: Tree, chain: seq<PageId>, c: nat)
    requires Leaves(t, chain) && c < |chain|
    ensures Leaves(t, chain[..c + 1]) && chain[..c + 1] == chain[..c] + [chain[c]]
    ensures c == |chain| - 1 ==> chain[..c + 1] == chain
  {
  }

  /** The middle part of three, read at a place or changed there. */
  lemma Middle(u: seq<Rec>, s: seq<Rec>, v: seq<Rec>, pos: nat, x: Rec)
    requires pos < |s|
    ensures |u + s + v| == |u| + |s| + |v| && (u + s + v)[|u| + pos] == s[pos]
    ensures (u + s + v)[|u| + pos := x] == u + s[pos := x] + v
  {
  }

  /** A record of a leaf changed in place. */
  lemma LeafChanged(t: Tree, b: Bounds, chain: seq<PageId>, c: nat, pos: nat, x: Rec, comm: int, temp: int)
    requires Inv(t, b) && ChainOk(t, b, chain) && c < |chain|
    requires chain[c] in t.pages && t.pages[chain[c]].Leaf? && pos < |t.pages[chain[c]].recs|
    requires ChainOk(PutLeaf(t, chain[c], t.pages[chain[c]].recs[pos := x], comm, temp), b, chain)
    ensures Leaves(t, chain) && Leaves(t, chain[..c])
    ensures var t' := PutLeaf(t, chain[c], t.pages[chain[c]].recs[pos := x], comm, temp);
      var g := |Contents(t, chain[..c])| + pos;
      && Leaves(t', chain) && Leaves(t', chain[..c]) && g < |Contents(t, chain)|
      && |Contents(t', chain[..c])| == |Contents(t, chain[..c])|
      && Contents(t', chain) == Contents(t, chain)[g := x]
  {
    var t' := PutLeaf(t, chain[c], t.pages[chain[c]].recs[pos := x], comm, temp);
    hide Inv, ChainOk, Contents, Leaves;
    ChainLeaves(t, b, chain);
    ChainLeaves(t', b, chain);
    SidesKept(t, b, chain, c, t');
    ContentsAround(t, chain, c);
    ContentsAround(t', chain, c);
    Middle(Contents(t, chain[..c]), t.pages[chain[c]].recs, Contents(t, chain[c + 1..]), pos, x);
  }

  lemma LeavesNow(t: Tree, b: Bounds, chain: seq<PageId>, queue: set<PageId>, level: nat, rs: seq<IndexRange>)
    requires Sound(t, b, chain, queue, level, rs)
    ensures Leaves(t, chain)
  {
    ChainLeaves(t, b, chain);
  }

  lemma LeafInChain(t: Tree, chain: seq<PageId>, c: nat)
    requires Leaves(t, chain) && c < |chain|
    ensures chain[c] in t.pages && t.pages[chain[c]].Leaf?
  {
  }

  lemma AllSorted(t: Tree, b: Bounds, chain: seq<PageId>)
    requires Inv(t, b) && ChainOk(t, b, chain)
    ensures Leaves(t, chain) && SortedRecs(Contents(t, chain))
  {
    ContentsSorted(t, b, chain, |chain|);
    assert chain[..|chain|] == chain;
  }

  lemma KeyThere(s: seq<Rec>, kk: real, pos: nat, bFind: bool)
    requires IsLowerBound(s, ByKey(kk), pos) && (bFind <==> pos < |s| && Matches(s[pos].key, ByKey(kk)))
    requires SortedRecs(s)
    ensures bFind ==> pos < |s| && s[pos].key.key == kk
    ensures !bFind ==> forall y :: y in s ==> y.key.key != kk
  {
    if !bFind {
      forall j | 0 <= j < |s| ensures s[j].key.key != kk {
        if j < pos { assert Before(s[j].key, ByKey(kk)); }
        else { assert !Before(s[pos].key, ByKey(kk)); if pos < j { assert Lt(s[pos].key, s[j].key); } }
      }
    }
  }

  lemma SameThere(all: seq<Rec>, first: real, last: real, a: nat, g: nat)
    requires g < |all|
    ensures ScannedTo(all, a, g)[g] == all[g]
  {
  }

  lemma AtEnd(t: Tree, b: Bounds, chain: seq<PageId>, c: nat, all: seq<Rec>, a: nat, g: nat)
    requires Inv(t, b) && ChainOk(t, b, chain) && c < |chain|
    requires chain[c] in t.pages && t.pages[chain[c]].Leaf? && t.pages[chain[c]].next.None?
    requires Leaves(t, chain) && Leaves(t, chain[..c]) && Contents(t, chain) == ScannedTo(all, a, g)
    requires g == |Contents(t, chain[..c])| + |t.pages[chain[c]].recs|
    ensures g == |all|
  {
    LeafWithin(t, b, chain, c, 0);
  }

  lemma ReleasedWithin(t: Tree, b: Bounds, chain: seq<PageId>, c: nat, pos: nat)
    requires Inv(t, b) && ChainOk(t, b, chain) && c < |chain|
    requires chain[c] in t.pages && t.pages[chain[c]].Leaf? && pos < |t.pages[chain[c]].recs|
    requires ChainOk(WithLeaf(t, chain[c], ReleasedPage(t.pages[chain[c]], pos)), b, chain)
    ensures Leaves(t, chain) && Leaves(t, chain[..c])
    ensures var t' := WithLeaf(t, chain[c], ReleasedPage(t.pages[chain[c]], pos));
      var g := |Contents(t, chain[..c])| + pos;
      && Leaves(t', chain) && Leaves(t', chain[..c]) && g < |Contents(t, chain)|
      && |Contents(t', chain[..c])| == |Contents(t, chain[..c])|
      && Contents(t', chain) == (if Contents(t, chain)[g].due then Contents(t,
          chain)[g := AfterRelease(Contents(t, chain)[g])]
                                 else Contents(t, chain))
      && t'.pages[chain[c]].Leaf? && |t'.pages[chain[c]].recs| == |t.pages[chain[c]].recs|
  {
    var top := t.pages[chain[c]];
    LeafWithin(t, b, chain, c, pos);
    LeafSorted(t, b, chain[c]);
    ReleasedOk(top.recs, pos, b[chain[c]], t.unique);
    hide Inv, ChainOk, Contents, Wrapped;
    if top.recs[pos].due {
      var y := ReleasedPage(top, pos);
      LeafChanged(t, b, chain, c, pos, AfterRelease(top.recs[pos]), y.comm, y.temp);
    } else {
      assert WithLeaf(t, chain[c], top) == t;
    }
  }
}
