/** Splits keep the tree invariant (src/core/LeafPage.cpp:423-663, src/core/BranchPage.cpp:233-408).

    Both splits do the same thing to the tree: the parent's entry for the page is replaced by entries for
    the page and its new siblings, and the page's range is handed out among them. */
module TreeSplit {
  import opened KeyOrder
  import opened GreedySplit
  import opened PageIds
  import opened Pages
  import opened Search
  import opened LeafCuts
  import opened TreeInv

  // ---------- a new root above the old one ----------

  function WithParent(p: Page, q: Option<PageId>): Page {
    p.(parent := q)
  }

  function Grow(t: Tree, q: PageId, e: Entry): Tree
    requires t.root in t.pages
  {
    var top := t.pages[t.root];
    Tree(t.pages[t.root := WithParent(top, Some(q))][q := Branch(None, Level(top) + 1, [e], e.len, true)],
         q, t.unique)
  }

  lemma GrowInv(t: Tree, b: Bounds, q: PageId, e: Entry)
    requires Inv(t, b) && q !in t.pages && e.child == t.root
    requires EntryFit(e) && (t.unique ==> e.sep.val == 0.0)
    ensures Inv(Grow(t, q, e), b[q := ALL])
  {
    var t', b' := Grow(t, q, e), b[q := ALL];
    GrowRoot(t, b, q, e);
    hide PageOk, Grow;
    assert t'.pages.Keys == t.pages.Keys + {q} && t'.root == q by { GrowKeys(t, q, e); }
    forall x | x in t.pages ensures PageOk(t', b', x) {
      GrowOther(t, b, q, e, x);
    }
  }

  lemma GrowKeys(t: Tree, q: PageId, e: Entry)
    requires t.root in t.pages
    ensures Grow(t, q, e).pages.Keys == t.pages.Keys + {q} && Grow(t, q, e).root == q
  {
  }

  lemma GrowRoot(t: Tree, b: Bounds, q: PageId, e: Entry)
    requires Inv(t, b) && q !in t.pages && e.child == t.root
    requires EntryFit(e) && (t.unique ==> e.sep.val == 0.0)
    ensures PageOk(Grow(t, q, e), b[q := ALL], q)
  {
    hide RecsOk;
    assert ELens([e]) == [e.len];
    assert Part([e.len], 0, 1) == Part([e.len], 0, 0) + e.len;
    assert PageOk(t, b, t.root);
    assert KidOk(Grow(t, q, e), b[q := ALL], q, 0);
  }

  lemma GrowOther(t: Tree, b: Bounds, q: PageId, e: Entry, x: PageId)
    requires Inv(t, b) && q !in t.pages && e.child == t.root && x in t.pages
    ensures PageOk(Grow(t, q, e), b[q := ALL], x)
  {
    hide ContentOk;
    var t', b' := Grow(t, q, e), b[q := ALL];
    assert PageOk(t, b, x);
    assert ContentOk(t'.pages[x], b'[x], t'.unique) by { SameContent(t.pages[x], t'.pages[x], b[x], t.unique); }
    if t.pages[x].Branch? {
      forall i | 0 <= i < |t'.pages[x].entries| ensures KidOk(t', b', x, i) {
        Kid(t, b, x, i);
        assert t.pages[x].entries[i].child != t.root;
      }
    }
    if x == t.root {
      assert t'.pages[q].entries[0].child == x;
    }
  }

  /** Everything about a page but its links to parent and previous page, and its next page. */
  function Core(p: Page): Page {
    match p
    case Leaf(_, _, _, _, _, _, _) => p.(parent := None, prev := None, next := None)
    case Branch(_, _, _, _, _) => p.(parent := None)
  }

  lemma SameContent(p: Page, p': Page, r: Range, unique: bool)
    requires Core(p) == Core(p')
    ensures ContentOk(p, r, unique) == ContentOk(p', r, unique)
  {
  }

  // ---------- one page becomes several ----------

  function Splice(es: seq<Entry>, i: nat, mid: seq<Entry>): seq<Entry>
    requires i < |es|
  {
    es[..i] + mid + es[i + 1..]
  }

  /** The page ids[0], the i-th child of page q, now shares its range with the new pages ids[1..], as
      the entries `es` say. */
  ghost predicate Replaced(t: Tree, t': Tree, q: PageId, i: nat, ids: seq<PageId>, es: seq<Entry>) {
    && IsBranch(t, q) && i < |t.pages[q].entries|
    && |ids| == |es| > 0 && Distinct(ids)
    && ids[0] == t.pages[q].entries[i].child && ids[0] in t.pages && ids[0] != q
    && (forall j :: 1 <= j < |ids| ==> ids[j] !in t.pages)
    && (forall j :: 0 <= j < |es| ==> es[j].child == ids[j])
    && t'.root == t.root && t'.unique == t.unique
    && (forall x :: x in t'.pages <==> x in t.pages || x in ids)
    && t'.pages[q] == t.pages[q].(entries := Splice(t.pages[q].entries, i, es),
                                  comm := t.pages[q].comm - t.pages[q].entries[i].len + Sum(ELens(es)))
    && (forall j :: 0 <= j < |ids| ==>
          && t'.pages[ids[j]].parent == Some(q)
          && Level(t'.pages[ids[j]]) == Level(t.pages[ids[0]])
          && (t'.pages[ids[j]].end <==> j == |ids| - 1 && t.pages[ids[0]].end))
    && (forall x :: x in t.pages && x !in ids && x != q ==> Moved(t, t', ids, x))
  }

  /** A page outside the split keeps its content; a child of the split page may have a new parent. */
  ghost predicate Moved(t: Tree, t': Tree, ids: seq<PageId>, x: PageId)
    requires x in t.pages && |ids| > 0
  {
    && x in t'.pages
    && Core(t'.pages[x]) == Core(t.pages[x])
    && if t.pages[x].parent == Some(ids[0])
       then exists j :: 0 <= j < |ids| && IsBranch(t', ids[j]) && t'.pages[x].parent == Some(ids[j])
                        && HasChild(t'.pages[ids[j]].entries, x)
       else t'.pages[x].parent == t.pages[x].parent
  }

  /** Beside the page ids[0] and its parent q every page keeps its content, and what is new are the pages ids[1..]. */
  ghost predicate Beside(t: Tree, t': Tree, q: PageId, ids: seq<PageId>) {
    && |ids| > 0 && ids[0] in t.pages && q in t.pages && q in t'.pages && t'.root == t.root
    && t'.pages[q].Branch? == t.pages[q].Branch?
    && (forall x :: x in t.pages && x != ids[0] && x != q ==> x in t'.pages && Core(t'.pages[x]) == Core(t.pages[x]))
    && (forall x :: x in t'.pages && x !in t.pages ==> x in ids)
    && (forall j :: 1 <= j < |ids| ==> ids[j] !in t.pages)
    && (forall j :: 0 <= j < |ids| ==> ids[j] in t'.pages && Level(t'.pages[ids[j]]) == Level(t.pages[ids[0]]))
  }

  lemma ReplacedBeside(t: Tree, t': Tree, q: PageId, i: nat, ids: seq<PageId>, es: seq<Entry>)
    requires Replaced(t, t', q, i, ids, es)
    ensures Beside(t, t', q, ids)
    ensures es == [t.pages[q].entries[i]] ==> t'.pages[q] == t.pages[q]
  {
    forall x | x in t.pages && x != ids[0] && x != q ensures x in t'.pages && Core(t'.pages[x]) == Core(t.pages[x]) {
      assert x !in ids;
      assert Moved(t, t', ids, x);
    }
    if es == [t.pages[q].entries[i]] {
      assert Splice(t.pages[q].entries, i, es) == t.pages[q].entries;
      assert ELens(es) == [es[0].len] && Part(ELens(es), 0, 0) == 0;
    }
  }

  ghost predicate Rebounded(b: Bounds, b': Bounds, ids: seq<PageId>, es: seq<Entry>) {
    && |ids| == |es| > 0 && ids[0] in b
    && (forall x :: x in b' <==> x in b || x in ids)
    && (forall j :: 0 <= j < |ids| ==> b'[ids[j]] == ChildRange(es, b[ids[0]], j))
    && (forall x :: x in b && x !in ids ==> b'[x] == b[x])
  }

  lemma SpliceEntries(es: seq<Entry>, i: nat, mid: seq<Entry>, r: Range, unique: bool)
    requires EntriesOk(es, r, unique) && i < |es| && EntriesOk(mid, ChildRange(es, r, i), unique)
    ensures EntriesOk(Splice(es, i, mid), r, unique)
  {
    var s := Splice(es, i, mid);
    var n := |mid|;
    forall j, k | 0 <= j < k < |s| ensures Lt(s[j].sep, s[k].sep) {
      SpliceAt(es, i, mid, j);
      SpliceAt(es, i, mid, k);
      if j < i {
        if k >= i + n { assert Lt(es[j].sep, es[k - n + 1].sep); }
        else if k >= i { assert In(mid[k - i].sep, ChildRange(es, r, i)); assert Le(es[j].sep, es[i - 1].sep); }
      } else if j < i + n {
        if k >= i + n {
          assert In(mid[j - i].sep, ChildRange(es, r, i));
          assert Lt(es[i].sep, es[k - n + 1].sep);
        }
      }
    }
    forall j | 0 <= j < |s| ensures In(s[j].sep, r) && EntryFit(s[j]) && (unique ==> s[j].sep.val == 0.0) {
      SpliceAt(es, i, mid, j);
      if i <= j < i + n {
        assert In(mid[j - i].sep, ChildRange(es, r, i));
        ChildRangeNested(es, r, i, unique);
      }
    }
    SpliceAt(es, i, mid, |s| - 1);
  }

  lemma SpliceAt(es: seq<Entry>, i: nat, mid: seq<Entry>, j: nat)
    requires i < |es| && j < |es| + |mid| - 1
    ensures |Splice(es, i, mid)| == |es| + |mid| - 1
    ensures Splice(es, i, mid)[j] == if j < i then es[j]
                                      else if j < i + |mid| then mid[j - i] else es[j - |mid| + 1]
  {
  }

  lemma SpliceRange(es: seq<Entry>, i: nat, mid: seq<Entry>, r: Range, unique: bool, j: nat)
    requires EntriesOk(es, r, unique) && i < |es| && EntriesOk(mid, ChildRange(es, r, i), unique)
    requires j < |es| + |mid| - 1
    ensures |Splice(es, i, mid)| == |es| + |mid| - 1
    ensures ChildRange(Splice(es, i, mid), r, j)
            == if j < i then ChildRange(es, r, j)
               else if j < i + |mid| then ChildRange(mid, ChildRange(es, r, i), j - i)
               else ChildRange(es, r, j - |mid| + 1)
  {
    SpliceAt(es, i, mid, j);
    if j > 0 { SpliceAt(es, i, mid, j - 1); }
  }

  lemma SpliceLens(es: seq<Entry>, i: nat, mid: seq<Entry>)
    requires i < |es|
    ensures Sum(ELens(Splice(es, i, mid))) == Sum(ELens(es)) - es[i].len + Sum(ELens(mid))
  {
    assert ELens(Splice(es, i, mid)) == ELens(es[..i]) + (ELens(mid) + ELens(es[i + 1..]));
    SumConcat(ELens(es[..i]), ELens(mid) + ELens(es[i + 1..]));
    SumConcat(ELens(mid), ELens(es[i + 1..]));
    assert ELens(es) == ELens(es[..i]) + ([es[i].len] + ELens(es[i + 1..]));
    SumConcat(ELens(es[..i]), [es[i].len] + ELens(es[i + 1..]));
    SumConcat([es[i].len], ELens(es[i + 1..]));
    assert Part([es[i].len], 0, 1) == Part([es[i].len], 0, 0) + es[i].len;
  }

  /** The parent after the replacement. */
  lemma ReplacedParent(t: Tree, b: Bounds, t': Tree, b': Bounds, q: PageId, i: nat, ids: seq<PageId>, es: seq<Entry>)
    requires Inv(t, b) && Replaced(t, t', q, i, ids, es) && Rebounded(b, b', ids, es)
    requires EntriesOk(es, b[ids[0]], t.unique)
    ensures PageOk(t', b', q)
  {
    Kid(t, b, q, i);
    var E := t.pages[q].entries;
    assert b[ids[0]] == ChildRange(E, b[q], i);
    SpliceEntries(E, i, es, b[q], t.unique);
    SpliceLens(E, i, es);
    NotItself(t, b, q, i, ids);
    assert b'[q] == b[q];
    forall j | 0 <= j < |t'.pages[q].entries| ensures KidOk(t', b', q, j) {
      ReplacedKid(t, b, t', b', q, i, ids, es, j);
    }
    if q != t.root { var y, k := Up(t, b, q); }
    ReplacedUp(t, b, t', q, i, ids, es, q);
    LevelOfRoot(t, t', q, ids, es, i);
  }

  lemma NotItself(t: Tree, b: Bounds, q: PageId, i: nat, ids: seq<PageId>)
    requires Inv(t, b) && IsBranch(t, q) && i < |t.pages[q].entries| && |ids| > 0
    requires ids[0] == t.pages[q].entries[i].child
    requires forall j :: 1 <= j < |ids| ==> ids[j] !in t.pages
    ensures q !in ids
  {
    Kid(t, b, q, i);
  }

  lemma LevelOfRoot(t: Tree, t': Tree, q: PageId, ids: seq<PageId>, es: seq<Entry>, i: nat)
    requires t.root in t.pages && Replaced(t, t', q, i, ids, es)
    ensures t'.root in t'.pages && Level(t'.pages[t'.root]) == Level(t.pages[t.root])
  {
    if t.root != q && t.root !in ids {
      assert Moved(t, t', ids, t.root);
    }
  }

  lemma ReplacedKid(t: Tree, b: Bounds, t': Tree, b': Bounds, q: PageId, i: nat, ids: seq<PageId>, es: seq<Entry>,
      j: nat)
    requires Inv(t, b) && Replaced(t, t', q, i, ids, es) && Rebounded(b, b', ids, es)
    requires EntriesOk(es, b[ids[0]], t.unique) && q !in ids
    requires j < |t'.pages[q].entries|
    ensures KidOk(t', b', q, j)
  {
    hide ContentOk, EntriesOk, ChildRange;
    var E := t.pages[q].entries;
    assert PageOk(t, b, q) && KidOk(t, b, q, i);
    assert EntriesOk(E, b[q], t.unique) by { EntriesOf(t, b, q); }
    SpliceRange(E, i, es, b[q], t.unique, j);
    SpliceAt(E, i, es, j);
    if i <= j < i + |es| {
      assert t'.pages[q].entries[j].child == ids[j - i];
    } else {
      var k := if j < i then j else j - |es| + 1;
      SiblingStays(t, b, t', q, i, ids, es, k);
    }
  }

  /** The other children of the parent stay where they are. */
  lemma SiblingStays(t: Tree, b: Bounds, t': Tree, q: PageId, i: nat, ids: seq<PageId>, es: seq<Entry>, k: nat)
    requires Inv(t, b) && Replaced(t, t', q, i, ids, es) && k < |t.pages[q].entries| && k != i
    ensures KidOk(t, b, q, k)
    ensures var c := t.pages[q].entries[k].child;
      c !in ids && c in t'.pages && t'.pages[c].parent == Some(q) && Level(t'.pages[c]) == Level(t.pages[c])
  {
    hide PageOk, Inv, EntriesOk, ChildRange, Splice, ELens;
    Kid(t, b, q, k);
    var c := t.pages[q].entries[k].child;
    assert c != q by { KidElsewhere(t, b, q, k); }
    assert c != ids[0] by {
      if c == ids[0] { SameChildSameSlot(t, b, q, k, i); }
    }
    assert c !in ids && c != q;
    assert Moved(t, t', ids, c);
  }

  lemma KidElsewhere(t: Tree, b: Bounds, q: PageId, k: nat)
    requires Inv(t, b) && IsBranch(t, q) && k < |t.pages[q].entries|
    ensures t.pages[q].entries[k].child != q && t.pages[q].entries[k].child in t.pages
  {
    hide ContentOk;
    Kid(t, b, q, k);
  }

  lemma EntriesOf(t: Tree, b: Bounds, q: PageId)
    requires PageOk(t, b, q) && IsBranch(t, q)
    ensures EntriesOk(t.pages[q].entries, b[q], t.unique)
    ensures t.pages[q].comm == Sum(ELens(t.pages[q].entries))
  {
  }

  lemma SameChildSameSlot(t: Tree, b: Bounds, q: PageId, i: nat, j: nat)
    requires Inv(t, b) && IsBranch(t, q) && i < |t.pages[q].entries| && j < |t.pages[q].entries|
    requires t.pages[q].entries[i].child == t.pages[q].entries[j].child
    ensures i == j
  {
    Kid(t, b, q, i);
    Kid(t, b, q, j);
    EntriesOf(t, b, q);
    var es, r := t.pages[q].entries, b[q];
    if i < j {
      ChildRangesApart(es, r, i, j);
      ApartFromItself(ChildRange(es, r, i));
    } else if j < i {
      ChildRangesApart(es, r, j, i);
      ApartFromItself(ChildRange(es, r, j));
    }
  }

  lemma ApartFromItself(r: Range)
    requires ExtLt(r.lo, r.hi)
    ensures !ExtLe(r.hi, r.lo)
  {
  }

  /** A page that was not a child of the split page still has its entry in the same parent. */
  lemma ReplacedUp(t: Tree, b: Bounds, t': Tree, q: PageId, i: nat, ids: seq<PageId>, es: seq<Entry>, x: PageId)
    requires Inv(t, b) && Replaced(t, t', q, i, ids, es) && x in t.pages && x !in ids && q !in ids
    requires x in t'.pages && t'.pages[x].parent == t.pages[x].parent != Some(ids[0])
    ensures UpOk(t', x)
  {
    hide ContentOk;
    assert PageOk(t, b, x);
    if x != t.root {
      var y, k := Up(t, b, x);
      if y == q {
        var E := t.pages[q].entries;
        var k' := if k < i then k else k + |es| - 1;
        assert k != i;
        SpliceAt(E, i, es, k');
        assert t'.pages[y].entries[k'].child == x;
      } else {
        assert y !in ids;
        assert Moved(t, t', ids, y);
        assert t'.pages[y].entries[k].child == x;
      }
    }
  }

  /** Every page outside the split. */
  lemma ReplacedOther(t: Tree, b: Bounds, t': Tree, b': Bounds, q: PageId, i: nat, ids: seq<PageId>, es: seq<Entry>,
      x: PageId)
    requires Inv(t, b) && Replaced(t, t', q, i, ids, es) && Rebounded(b, b', ids, es)
    requires x in t.pages && x !in ids && x != q
    ensures PageOk(t', b', x)
  {
    hide ContentOk;
    NotItself(t, b, q, i, ids);
    assert PageOk(t, b, x) && Moved(t, t', ids, x);
    LevelOfRoot(t, t', q, ids, es, i);
    SameContent(t.pages[x], t'.pages[x], b[x], t.unique);
    if t.pages[x].Branch? {
      forall j | 0 <= j < |t'.pages[x].entries| ensures KidOk(t', b', x, j) {
        OtherKid(t, b, t', b', q, i, ids, es, x, j);
      }
    }
    if t.pages[x].parent != Some(ids[0]) {
      ReplacedUp(t, b, t', q, i, ids, es, x);
    } else {
      assert x != t.root;
    }
  }

  lemma OtherKid(t: Tree, b: Bounds, t': Tree, b': Bounds, q: PageId, i: nat, ids: seq<PageId>, es: seq<Entry>,
      x: PageId, j: nat)
    requires Inv(t, b) && Replaced(t, t', q, i, ids, es) && Rebounded(b, b', ids, es)
    requires x in t.pages && x !in ids && x != q && IsBranch(t, x) && q !in ids
    requires IsBranch(t', x) && t'.pages[x].entries == t.pages[x].entries && Level(t'.pages[x]) == Level(t.pages[x])
    requires j < |t.pages[x].entries|
    ensures KidOk(t', b', x, j)
  {
    hide PageOk, Inv, Splice, ELens;
    Kid(t, b, x, j);
    var c := t.pages[x].entries[j].child;
    Kid(t, b, q, i);
    assert c != ids[0];
    assert c !in ids;
    assert b'[x] == b[x] && b'[c] == b[c];
    if c != q {
      assert Moved(t, t', ids, c);
    }
  }

  /** The whole tree, once the pieces themselves are known to be sound. */
  lemma ReplacedInv(t: Tree, b: Bounds, t': Tree, b': Bounds, q: PageId, i: nat, ids: seq<PageId>, es: seq<Entry>)
    requires Inv(t, b) && Replaced(t, t', q, i, ids, es) && Rebounded(b, b', ids, es)
    requires EntriesOk(es, b[ids[0]], t.unique)
    requires forall j :: 0 <= j < |ids| ==> PageOk(t', b', ids[j])
    ensures Inv(t', b')
  {
    hide PageOk, Replaced, EntriesOk;
    ReplacedParent(t, b, t', b', q, i, ids, es);
    ReplacedBasics(t, b, t', b', q, i, ids, es);
    forall x | x in t'.pages ensures PageOk(t', b', x) {
      if x in ids {
      } else if x != q {
        ReplacedOther(t, b, t', b', q, i, ids, es, x);
      }
    }
  }

  lemma ReplacedBasics(t: Tree, b: Bounds, t': Tree, b': Bounds, q: PageId, i: nat, ids: seq<PageId>, es: seq<Entry>)
    requires Inv(t, b) && Replaced(t, t', q, i, ids, es) && Rebounded(b, b', ids, es)
    ensures t'.root in t'.pages && b'.Keys == t'.pages.Keys && b'[t'.root] == ALL
    ensures forall x :: x in t'.pages <==> x in t.pages || x in ids
  {
    hide ContentOk;
    Kid(t, b, q, i);
    assert PageOk(t, b, ids[0]);
    assert t.root != ids[0];
  }
}
