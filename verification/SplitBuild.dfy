/** The page table after a split, built page by page (src/core/LeafPage.cpp:523-637,
    src/core/BranchPage.cpp:293-362). */
module SplitBuild {
  import opened KeyOrder
  import opened GreedySplit
  import opened PageIds
  import opened Pages
  import opened Search
  import opened LeafCuts
  import opened TreeInv
  import opened TreeSplit
  import opened TreePieces
  import opened LeafChain

  type PageTable = map<PageId, Page>

  // ---------- entries of the pieces ----------

  /** A branch record for a child: its key, its length and its length without the value part. */
  datatype Tail = Tail(key: Key, len: nat, klen: nat)

  function RecTails(s: seq<Rec>): (r: seq<Tail>)
    ensures |r| == |s|
  {
    seq(|s|, i requires 0 <= i < |s| => Tail(s[i].key, s[i].elen, s[i].klen))
  }

  /** A branch record made from a branch record copies the value part only on an index that is not unique
      (src/core/BranchRecord.h:36-43). */
  function EntryTails(unique: bool, s: seq<Entry>): (r: seq<Tail>)
    ensures |r| == |s|
  {
    seq(|s|, i requires 0 <= i < |s| => Tail(s[i].sep, if unique then s[i].klen else s[i].len, s[i].klen))
  }

  function TailKeys(s: seq<Tail>): (r: seq<Key>)
    ensures |r| == |s|
  {
    seq(|s|, i requires 0 <= i < |s| => s[i].key)
  }

  ghost predicate TailLens(s: seq<Tail>) {
    forall i :: 0 <= i < |s| ==> 0 < s[i].klen <= s[i].len <= MAX_ENTRY
  }

  /** The entries for the split page and its new siblings.  The last sibling takes over the entry the
      parent held before if that reaches further. */
  method PieceEntriesFor(tails: seq<Tail>, cuts: seq<nat>, ids: seq<PageId>, before: Entry) returns (es: seq<Entry>)
    requires CutsOk(cuts, |tails|) && |ids| == |cuts| && TailLens(tails) && EntryFit(before)
    ensures PieceSeps(TailKeys(tails), cuts, es, before.sep) && EntryLens(es)
    ensures forall j :: 0 <= j < |es| ==> es[j].child == ids[j]
    ensures es[|es| - 1].sep == if |ids| == 1 then tails[|tails| - 1].key else Max(tails[|tails| - 1].key, before.sep)
    ensures forall j :: 0 <= j < |es| ==> MadeFrom(tails, cuts, before, |ids|, es[j], j)
  {
    assert Start(cuts, 0) < cuts[0] <= |tails|;
    var last := tails[cuts[0] - 1];
    es := [Entry(last.key, ids[0], last.len, last.klen)];
    var i := 1;
    while i < |ids|
      invariant 1 <= i <= |ids| && |es| == i && EntryLens(es)
      invariant forall j :: 0 <= j < i ==> es[j].child == ids[j]
      invariant forall j :: 0 <= j < i ==> 0 < cuts[j] <= |tails| && MadeFrom(tails, cuts, before, |ids|, es[j], j)
      invariant |ids| == 1 ==> es[0].sep == tails[|tails| - 1].key
      invariant i == |ids| > 1 ==> es[i - 1].sep == Max(tails[|tails| - 1].key, before.sep)
    {
      assert Start(cuts, i) < cuts[i] <= |tails|;
      last := tails[cuts[i] - 1];
      if i == |ids| - 1 && Lt(last.key, before.sep) {
        es := es + [Entry(before.sep, ids[i], before.len, before.klen)];
      } else {
        es := es + [Entry(last.key, ids[i], last.len, last.klen)];
      }
      i := i + 1;
    }
  }

  /** Entry j is made from the last record of its chunk, or, for the last of several, taken from the parent. */
  predicate MadeFrom(tails: seq<Tail>, cuts: seq<nat>, before: Entry, n: nat, e: Entry, j: nat) {
    && j < |cuts| && 0 < cuts[j] <= |tails|
    && var last := tails[cuts[j] - 1];
       if j == n - 1 && j > 0 && Lt(last.key, before.sep)
       then e.sep == before.sep && e.len == before.len && e.klen == before.klen
       else e.sep == last.key && e.len == last.len && e.klen == last.klen
  }

  // ---------- the parent ----------

  /** BranchPage::DeleteRecord, then BranchPage::InsertRecord for each piece. */
  method ReplaceEntry(q: Page, i: nat, es: seq<Entry>) returns (q': Page)
    requires q.Branch? && i < |q.entries|
    ensures q' == q.(entries := Splice(q.entries, i, es), comm := q.comm - q.entries[i].len + Sum(ELens(es)))
  {
    var entries := q.entries[..i] + q.entries[i + 1..];
    var comm := q.comm - q.entries[i].len;
    var j := 0;
    assert ELens(es[..0]) == [];
    while j < |es|
      invariant 0 <= j <= |es|
      invariant entries == q.entries[..i] + es[..j] + q.entries[i + 1..]
      invariant comm == q.comm - q.entries[i].len + Sum(ELens(es[..j]))
    {
      comm := comm + es[j].len;
      entries := entries[..i + j] + [es[j]] + entries[i + j..];
      assert es[..j + 1] == es[..j] + [es[j]];
      OneMorePiece(es, j);
      j := j + 1;
    }
    assert es[..j] == es;
    q' := q.(entries := entries, comm := comm);
  }

  lemma OneMorePiece(es: seq<Entry>, j: nat)
    requires j < |es|
    ensures Sum(ELens(es[..j + 1])) == Sum(ELens(es[..j])) + es[j].len
  {
    assert ELens(es[..j + 1]) == ELens(es[..j]) + [es[j].len];
    SumConcat(ELens(es[..j]), [es[j].len]);
    assert Part([es[j].len], 0, 1) == Part([es[j].len], 0, 0) + es[j].len;
  }

  // ---------- leaf pieces ----------

  function LeafAt(top: Page, q: PageId, live: seq<Rec>, cuts: seq<nat>, clens: seq<int>, tlens: seq<int>,
      ids: seq<PageId>, j: nat): Page
    requires top.Leaf? && |cuts| == |clens| == |tlens| == |ids| && j < |ids| && Start(cuts, j) <= cuts[j] <= |live|
  {
    Leaf(Some(q), live[Start(cuts, j)..cuts[j]], clens[j], tlens[j],
         if j > 0 then Some(ids[j - 1]) else top.prev,
         if j < |ids| - 1 then Some(ids[j + 1]) else top.next,
         j == |ids| - 1 && top.end)
  }

  ghost predicate LeafPlaced(m': PageTable, top: Page, q: PageId, live: seq<Rec>, cuts: seq<nat>, clens: seq<int>,
                             tlens: seq<int>, ids: seq<PageId>, j: nat)
    requires top.Leaf? && |cuts| == |clens| == |tlens| == |ids| && j < |ids|
  {
    && Start(cuts, j) <= cuts[j] <= |live| && ids[j] in m'
    && m'[ids[j]] == LeafAt(top, q, live, cuts, clens, tlens, ids, j)
  }

  ghost predicate Shape(cuts: seq<nat>, n: nat, ids: seq<PageId>) {
    CutsOk(cuts, n) && |ids| == |cuts| && Distinct(ids)
  }

  /** The page table after the split of leaf ids[0] with parent q. */
  ghost predicate LeafSplitDone(m: PageTable, m': PageTable, q: PageId, i: nat, ids: seq<PageId>, es: seq<Entry>,
                                live: seq<Rec>, cuts: seq<nat>, clens: seq<int>, tlens: seq<int>)
    requires Shape(cuts, |live|, ids) && |clens| == |tlens| == |ids|
    requires ids[0] in m && m[ids[0]].Leaf? && q in m && m[q].Branch? && i < |m[q].entries|
  {
    && (forall x :: x in m' <==> x in m || x in ids)
    && (forall j {:trigger LeafPlaced(m', m[ids[0]], q, live, cuts, clens, tlens, ids, j)} :: 0 <= j < |ids| ==>
          LeafPlaced(m', m[ids[0]], q, live, cuts, clens, tlens, ids, j))
    && m'[q] == m[q].(entries := Splice(m[q].entries, i, es), comm := m[q].comm - m[q].entries[i].len + Sum(ELens(es)))
    && (forall x :: x in m && x !in ids && x != q ==>
          m'[x] == if m[ids[0]].next == Some(x) && m[x].Leaf? then m[x].(prev := Some(ids[|ids| - 1])) else m[x])
  }

  /** LeafPage::SplitPage from the allocation of the new pages to the links of the old neighbour. */
  method BuildLeafSplit(m: PageTable, q: PageId, i: nat, ids: seq<PageId>, es: seq<Entry>,
                        live: seq<Rec>, cuts: seq<nat>, clens: seq<int>, tlens: seq<int>) returns (m': PageTable)
    requires Shape(cuts, |live|, ids) && |clens| == |tlens| == |ids|
    requires ids[0] in m && m[ids[0]].Leaf? && q in m && m[q].Branch? && i < |m[q].entries| && ids[0] != q
    requires forall j :: 1 <= j < |ids| ==> ids[j] !in m
    ensures LeafSplitDone(m, m', q, i, ids, es, live, cuts, clens, tlens)
  {
    hide Splice, ELens, LeafAt;
    var top, parent := m[ids[0]], m[q];
    var parent' := ReplaceEntry(parent, i, es);
    m' := m[q := parent'];
    if top.next.Some? && top.next.value in m && m[top.next.value].Leaf? {
      m' := m'[top.next.value := m[top.next.value].(prev := Some(ids[|ids| - 1]))];
    }
    ghost var rest := m';
    var j := 0;
    while j < |ids|
      invariant 0 <= j <= |ids|
      invariant forall x :: x in m' <==> x in m || x in ids[..j]
      invariant forall k {:trigger LeafPlaced(m', top, q, live, cuts, clens, tlens, ids, k)} :: 0 <= k < j ==>
                  LeafPlaced(m', top, q, live, cuts, clens, tlens, ids, k)
      invariant forall x :: x in m && x !in ids ==> m'[x] == rest[x]
    {
      assert Start(cuts, j) < cuts[j] <= |live|;
      assert ids[..j + 1] == ids[..j] + [ids[j]];
      ghost var was := m';
      m' := m'[ids[j] := LeafAt(top, q, live, cuts, clens, tlens, ids, j)];
      forall k | 0 <= k <= j ensures LeafPlaced(m', top, q, live, cuts, clens, tlens, ids, k) {
        assert ids[k] == ids[j] || LeafPlaced(was, top, q, live, cuts, clens, tlens, ids, k);
      }
      j := j + 1;
    }
    assert ids[..j] == ids;
    NotParent(ids, q, m);
  }

  lemma NotParent(ids: seq<PageId>, q: PageId, m: PageTable)
    requires |ids| > 0 && ids[0] != q && q in m && forall j :: 1 <= j < |ids| ==> ids[j] !in m
    ensures q !in ids
  {
  }

  // ---------- branch pieces ----------

  function BranchAt(top: Page, q: PageId, cuts: seq<nat>, lens: seq<int>, ids: seq<PageId>, j: nat): Page
    requires top.Branch? && |cuts| == |lens| == |ids| && j < |ids| && Start(cuts, j) <= cuts[j] <= |top.entries|
  {
    Branch(Some(q), top.level, top.entries[Start(cuts, j)..cuts[j]], lens[j], j == |ids| - 1 && top.end)
  }

  ghost predicate BranchPlaced(m': PageTable, top: Page, q: PageId, cuts: seq<nat>, lens: seq<int>, ids: seq<PageId>,
      j: nat)
    requires top.Branch? && |cuts| == |lens| == |ids| && j < |ids|
  {
    && Start(cuts, j) <= cuts[j] <= |top.entries| && ids[j] in m'
    && m'[ids[j]] == BranchAt(top, q, cuts, lens, ids, j)
  }

  function Kids(es: seq<Entry>): (r: set<PageId>)
    ensures forall c :: c in r <==> HasChild(es, c)
  {
    set i | 0 <= i < |es| :: es[i].child
  }

  /** SetParentPage and SetParentPageID for the children of a new page. */
  method Reparent(m: PageTable, es: seq<Entry>, id: PageId) returns (m': PageTable)
    requires forall i :: 0 <= i < |es| ==> es[i].child in m
    ensures forall x :: x in m' <==> x in m
    ensures forall x :: x in m ==> m'[x] == if x in Kids(es) then WithParent(m[x], Some(id)) else m[x]
  {
    hide Kids;
    m' := m;
    var i := 0;
    assert forall x :: x !in Kids(es[..0]);
    while i < |es|
      invariant 0 <= i <= |es|
      invariant forall x :: x in m' <==> x in m
      invariant forall x :: x in m ==> m'[x] == if x in Kids(es[..i]) then WithParent(m[x], Some(id)) else m[x]
    {
      var c := es[i].child;
      KidsSnoc(es, i);
      m' := m'[c := WithParent(m'[c], Some(id))];
      i := i + 1;
    }
    assert es[..i] == es;
  }

  lemma KidsSnoc(es: seq<Entry>, i: nat)
    requires i < |es|
    ensures Kids(es[..i + 1]) == Kids(es[..i]) + {es[i].child}
  {
    hide Kids;
    var u, v := es[..i + 1], es[..i];
    forall c ensures c in Kids(u) <==> c in Kids(v) || c == es[i].child {
      if c in Kids(v) {
        var k :| 0 <= k < |v| && v[k].child == c;
        assert u[k].child == c;
      }
      if c == es[i].child { assert u[i].child == c; }
      if c in Kids(u) {
        var k :| 0 <= k < |u| && u[k].child == c;
        if k < i { assert v[k].child == c; }
      }
    }
  }

  /** The children of a branch page are different pages, none of them split here or its parent. */
  ghost predicate KidsApart(m: PageTable, all: seq<Entry>, ids: seq<PageId>, q: PageId) {
    && (forall i, j :: 0 <= i < j < |all| ==> all[i].child != all[j].child)
    && (forall i :: 0 <= i < |all| ==> all[i].child in m && all[i].child !in ids && all[i].child != q)
  }

  /** The children of the k-th piece have it as parent. */
  ghost predicate Adopted(m: PageTable, m': PageTable, all: seq<Entry>, cuts: seq<nat>, ids: seq<PageId>, k: nat)
    requires |cuts| == |ids| && k < |ids|
  {
    forall i {:trigger all[i]} :: Start(cuts, k) <= i < cuts[k] && i < |all| ==>
      all[i].child in m && all[i].child in m' && m'[all[i].child] == WithParent(m[all[i].child], Some(ids[k]))
  }

  /** The entries from `a` on still have their old pages. */
  ghost predicate Untouched(m: PageTable, m': PageTable, all: seq<Entry>, a: nat) {
    forall i {:trigger all[i]} :: a <= i < |all| ==>
      all[i].child in m && all[i].child in m' && m'[all[i].child] == m[all[i].child]
  }

  ghost predicate OthersKept(m: PageTable, m': PageTable, all: seq<Entry>, ids: seq<PageId>, q: PageId) {
    forall x :: x in m && x !in ids && x != q && !HasChild(all, x) ==> x in m' && m'[x] == m[x]
  }

  /** The page table after the split of branch page ids[0] with parent q. */
  ghost predicate BranchSplitDone(m: PageTable, m': PageTable, q: PageId, i: nat, ids: seq<PageId>, es: seq<Entry>,
                                  cuts: seq<nat>, lens: seq<int>)
    requires |cuts| == |ids| == |lens| > 0
    requires ids[0] in m && m[ids[0]].Branch? && q in m && m[q].Branch? && i < |m[q].entries|
  {
    var all := m[ids[0]].entries;
    && (forall x :: x in m' <==> x in m || x in ids)
    && (forall j {:trigger BranchPlaced(m', m[ids[0]], q, cuts, lens, ids, j)} :: 0 <= j < |ids| ==>
          BranchPlaced(m', m[ids[0]], q, cuts, lens, ids, j))
    && q in m' && m'[q] == m[q].(entries := Splice(m[q].entries, i, es),
        comm := m[q].comm - m[q].entries[i].len + Sum(ELens(es)))
    && (forall k {:trigger Adopted(m, m', all, cuts, ids, k)} :: 0 <= k < |ids| ==> Adopted(m, m', all, cuts, ids, k))
    && OthersKept(m, m', all, ids, q)
  }

  lemma ChunkKids(all: seq<Entry>, cuts: seq<nat>, j: nat, i: nat)
    requires CutsOk(cuts, |all|) && j < |cuts| && i < |all|
    requires forall i, j :: 0 <= i < j < |all| ==> all[i].child != all[j].child
    ensures Start(cuts, j) < cuts[j] <= |all|
    ensures all[i].child in Kids(all[Start(cuts, j)..cuts[j]]) <==> Start(cuts, j) <= i < cuts[j]
  {
    hide Kids;
    assert Start(cuts, j) < cuts[j] <= |all|;
    var s := all[Start(cuts, j)..cuts[j]];
    if Start(cuts, j) <= i < cuts[j] {
      assert s[i - Start(cuts, j)].child == all[i].child;
    }
    if all[i].child in Kids(s) {
      var k :| 0 <= k < |s| && s[k].child == all[i].child;
      assert all[Start(cuts, j) + k].child == all[i].child;
    }
  }

  /** Reparenting one piece's children and adding the piece keeps what was done before. */
  lemma AdoptStep(m: PageTable, u: PageTable, v: PageTable, w: PageTable, all: seq<Entry>, cuts: seq<nat>,
      ids: seq<PageId>,
                  q: PageId, j: nat, p: Page)
    requires CutsOk(cuts, |all|) && |cuts| == |ids| && 0 < j < |ids| && KidsApart(m, all, ids, q)
    requires Untouched(m, u, all, Start(cuts, j)) && OthersKept(m, u, all, ids, q)
    requires forall k {:trigger Adopted(m, u, all, cuts, ids, k)} :: 0 <= k < j ==> Adopted(m, u, all, cuts, ids, k)
    requires Start(cuts, j) <= cuts[j] <= |all|
    requires forall x :: x in v <==> x in u
    requires forall x :: x in u ==> v[x] == if x in Kids(all[Start(cuts, j)..cuts[j]]) then WithParent(u[x],
        Some(ids[j])) else u[x]
    requires w == v[ids[j] := p]
    ensures Untouched(m, w, all, cuts[j]) && OthersKept(m, w, all, ids, q)
    ensures forall k {:trigger Adopted(m, w, all, cuts, ids, k)} :: 0 <= k <= j ==> Adopted(m, w, all, cuts, ids, k)
  {
    hide Kids;
    forall i | cuts[j] <= i < |all| ensures all[i].child in w && w[all[i].child] == m[all[i].child] {
      ChunkKids(all, cuts, j, i);
    }
    forall x | x in m && x !in ids && x != q && !HasChild(all, x) ensures x in w && w[x] == m[x] {
      NotAKid(all, Start(cuts, j), cuts[j], x);
    }
    forall k | 0 <= k <= j ensures Adopted(m, w, all, cuts, ids, k) {
      if k < j {
        assert Adopted(m, u, all, cuts, ids, k);
        CutOrder(cuts, |all|, k, j);
      }
      forall i | Start(cuts, k) <= i < cuts[k] && i < |all|
        ensures all[i].child in w && w[all[i].child] == WithParent(m[all[i].child], Some(ids[k]))
      {
        ChunkKids(all, cuts, j, i);
      }
    }
  }

  lemma NotAKid(all: seq<Entry>, a: nat, d: nat, x: PageId)
    requires a <= d <= |all| && !HasChild(all, x)
    ensures x !in Kids(all[a..d])
  {
    hide Kids;
    forall k | 0 <= k < d - a ensures all[a..d][k].child != x {
      assert all[a + k].child != x;
    }
  }

  /** BranchPage::SplitPage from the allocation of the new pages to the new parents of their children. */
  method BuildBranchSplit(m: PageTable, q: PageId, i: nat, ids: seq<PageId>, es: seq<Entry>,
                          cuts: seq<nat>, lens: seq<int>) returns (m': PageTable)
    requires |cuts| == |ids| == |lens| && Distinct(ids)
    requires |ids| > 0 && ids[0] in m && m[ids[0]].Branch? && q in m && m[q].Branch? && i < |m[q].entries| &&
        ids[0] != q
    requires CutsOk(cuts, |m[ids[0]].entries|) && KidsApart(m, m[ids[0]].entries, ids, q)
    requires forall j :: 1 <= j < |ids| ==> ids[j] !in m
    requires forall k :: 0 <= k < |m[ids[0]].entries| ==> m[m[ids[0]].entries[k].child].parent == Some(ids[0])
    ensures BranchSplitDone(m, m', q, i, ids, es, cuts, lens)
  {
    hide Splice, ELens, BranchAt, Kids, Adopted, Untouched, OthersKept;
    var top := m[ids[0]];
    var all := top.entries;
    var parent' := ReplaceEntry(m[q], i, es);
    assert Start(cuts, 0) < cuts[0] <= |all|;
    m' := m[q := parent'][ids[0] := BranchAt(top, q, cuts, lens, ids, 0)];
    FirstPiece(m, m', all, cuts, ids, q);
    var j := 1;
    while j < |ids|
      invariant 1 <= j <= |ids|
      invariant forall x :: x in m' <==> x in m || x in ids[..j]
      invariant q in m' && m'[q] == parent'
      invariant forall k {:trigger BranchPlaced(m', top, q, cuts, lens, ids, k)} :: 0 <= k < j ==>
          BranchPlaced(m', top, q, cuts, lens, ids, k)
      invariant Untouched(m, m', all, Start(cuts, j)) && OthersKept(m, m', all, ids, q)
      invariant forall k {:trigger Adopted(m, m', all, cuts, ids, k)} :: 0 <= k < j ==>
          Adopted(m, m', all, cuts, ids, k)
    {
      assert Start(cuts, j) < cuts[j] <= |all|;
      assert ids[..j + 1] == ids[..j] + [ids[j]];
      ghost var was := m';
      KidsIn(m, was, all, Start(cuts, j), cuts[j]);
      var m'' := Reparent(m', all[Start(cuts, j)..cuts[j]], ids[j]);
      KidsNotSplit(m, all, ids, q, Start(cuts, j), cuts[j]);
      m' := m''[ids[j] := BranchAt(top, q, cuts, lens, ids, j)];
      AdoptStep(m, was, m'', m', all, cuts, ids, q, j, BranchAt(top, q, cuts, lens, ids, j));
      forall k | 0 <= k <= j ensures BranchPlaced(m', top, q, cuts, lens, ids, k) {
        assert ids[k] == ids[j] || BranchPlaced(was, top, q, cuts, lens, ids, k);
      }
      j := j + 1;
    }
    assert ids[..j] == ids;
  }

  lemma FirstPiece(m: PageTable, m': PageTable, all: seq<Entry>, cuts: seq<nat>, ids: seq<PageId>, q: PageId)
    requires CutsOk(cuts, |all|) && |cuts| == |ids| && KidsApart(m, all, ids, q) && q in m && ids[0] in m
    requires forall x :: x in m ==> x in m' && (x != q && x != ids[0] ==> m'[x] == m[x])
    requires forall k :: 0 <= k < |all| ==> all[k].child in m && m[all[k].child].parent == Some(ids[0])
    ensures Untouched(m, m', all, Start(cuts, 1)) && OthersKept(m, m', all, ids, q) && Adopted(m, m', all, cuts, ids, 0)
  {
  }

  lemma KidsIn(m: PageTable, m': PageTable, all: seq<Entry>, a: nat, d: nat)
    requires Untouched(m, m', all, a) && a <= d <= |all|
    ensures forall k :: 0 <= k < d - a ==> all[a..d][k].child in m'
  {
  }

  lemma KidsNotSplit(m: PageTable, all: seq<Entry>, ids: seq<PageId>, q: PageId, a: nat, d: nat)
    requires KidsApart(m, all, ids, q) && a <= d <= |all|
    ensures q !in Kids(all[a..d]) && forall x :: x in ids ==> x !in Kids(all[a..d])
  {
    hide Kids;
  }
}
