/** The invariant of the index tree and what it gives a search (src/core/IndexTree.cpp:354-420).

    The invariant is local: every page covers a key range, a branch page hands out the pieces of its
    range to its children, and parent and child point at each other.  The ranges are ghost state. */
module TreeInv {
  import opened KeyOrder
  import opened GreedySplit
  import opened PageIds
  import opened Pages
  import opened Search
  import opened LeafCuts

  datatype Tree = Tree(pages: map<PageId, Page>, root: PageId, unique: bool)

  type Bounds = map<PageId, Range>

  // ---------- page contents ----------

  ghost predicate RecsOk(s: seq<Rec>, r: Range, unique: bool) {
    && SortedRecs(s)
    && (forall i :: 0 <= i < |s| ==> In(s[i].key, r))
    && KeysOnly(unique, s)
    && AllFit(s, MAX_LEAF)
  }

  ghost predicate EntryLens(es: seq<Entry>) {
    forall i :: 0 <= i < |es| ==> EntryFit(es[i])
  }

  /** The separators increase within the range.  A page that does not reach the end of its level ends
      with the separator its parent holds for it. */
  ghost predicate EntriesOk(es: seq<Entry>, r: Range, unique: bool) {
    && |es| > 0
    && SortedEntries(es)
    && (forall i :: 0 <= i < |es| ==> In(es[i].sep, r))
    && (r.hi.Fin? ==> es[|es| - 1].sep == r.hi.k)
    && (unique ==> forall i :: 0 <= i < |es| ==> es[i].sep.val == 0.0)
    && EntryLens(es)
  }

  ghost predicate ContentOk(p: Page, r: Range, unique: bool) {
    match p
    case Leaf(_, recs, _, _, _, _, _) =>
      RecsOk(recs, r, unique)
    case Branch(_, level, entries, comm, _) =>
      level > 0 && EntriesOk(entries, r, unique) && comm == Sum(ELens(entries))
  }

  // ---------- links ----------

  ghost predicate HasChild(es: seq<Entry>, id: PageId) {
    exists i :: 0 <= i < |es| && es[i].child == id
  }

  ghost predicate IsBranch(t: Tree, id: PageId) {
    id in t.pages && t.pages[id].Branch?
  }

  ghost predicate KidOk(t: Tree, b: Bounds, id: PageId, i: nat)
    requires IsBranch(t, id) && id in b && i < |t.pages[id].entries|
  {
    var c := t.pages[id].entries[i].child;
    && c in t.pages && c in b
    && b[c] == ChildRange(t.pages[id].entries, b[id], i)
    && t.pages[c].parent == Some(id)
    && Level(t.pages[c]) + 1 == t.pages[id].level
  }

  ghost predicate KidsOk(t: Tree, b: Bounds, id: PageId)
    requires IsBranch(t, id) && id in b
  {
    forall i {:trigger KidOk(t, b, id, i)} :: 0 <= i < |t.pages[id].entries| ==> KidOk(t, b, id, i)
  }

  ghost predicate UpOk(t: Tree, id: PageId)
    requires id in t.pages
  {
    match t.pages[id].parent
    case None => id == t.root
    case Some(q) => id != t.root && IsBranch(t, q) && HasChild(t.pages[q].entries, id)
  }

  ghost predicate PageOk(t: Tree, b: Bounds, id: PageId) {
    && id in t.pages && id in b && t.root in t.pages
    && ExtLt(b[id].lo, b[id].hi)
    && (t.pages[id].end <==> b[id].hi.PosInf?)
    && Level(t.pages[id]) <= Level(t.pages[t.root])
    && ContentOk(t.pages[id], b[id], t.unique)
    && (t.pages[id].Branch? ==> KidsOk(t, b, id))
    && UpOk(t, id)
  }

  ghost predicate Inv(t: Tree, b: Bounds) {
    && t.root in t.pages
    && b.Keys == t.pages.Keys
    && b[t.root] == ALL
    && (forall id {:trigger PageOk(t, b, id)} :: id in t.pages ==> PageOk(t, b, id))
  }

  lemma RangeProper(t: Tree, b: Bounds, x: PageId)
    requires Inv(t, b) && x in t.pages
    ensures x in b && ExtLt(b[x].lo, b[x].hi)
  {
    assert PageOk(t, b, x);
  }

  // ---------- ranges of children ----------

  lemma ChildRangeNested(es: seq<Entry>, r: Range, i: nat, unique: bool)
    requires EntriesOk(es, r, unique) && i < |es|
    ensures ExtLe(r.lo, ChildRange(es, r, i).lo) && ExtLe(ChildRange(es, r, i).hi, r.hi)
  {
  }

  lemma ChildRangesApart(es: seq<Entry>, r: Range, i: nat, j: nat)
    requires SortedEntries(es) && i < j < |es|
    ensures ExtLe(ChildRange(es, r, i).hi, ChildRange(es, r, j).lo)
  {
  }

  lemma ChildRangeProper(es: seq<Entry>, r: Range, i: nat, unique: bool)
    requires EntriesOk(es, r, unique) && i < |es| && ExtLt(r.lo, r.hi)
    ensures ExtLt(ChildRange(es, r, i).lo, ChildRange(es, r, i).hi)
    ensures ChildRange(es, r, i).hi.PosInf? <==> i == |es| - 1 && r.hi.PosInf?
  {
  }

  /** What the invariant says about one link from parent to child. */
  lemma Kid(t: Tree, b: Bounds, q: PageId, i: nat)
    requires Inv(t, b) && IsBranch(t, q) && i < |t.pages[q].entries|
    ensures KidOk(t, b, q, i)
    ensures PageOk(t, b, t.pages[q].entries[i].child) && PageOk(t, b, q)
  {
    assert PageOk(t, b, q);
    assert KidOk(t, b, q, i);
    assert PageOk(t, b, t.pages[q].entries[i].child);
  }

  /** A page that is not the root has an entry in its parent. */
  lemma Up(t: Tree, b: Bounds, p: PageId) returns (q: PageId, i: nat)
    requires Inv(t, b) && p in t.pages && p != t.root
    ensures t.pages[p].parent == Some(q) && IsBranch(t, q)
    ensures i < |t.pages[q].entries| && t.pages[q].entries[i].child == p && KidOk(t, b, q, i)
    ensures PageOk(t, b, q) && PageOk(t, b, p)
  {
    assert PageOk(t, b, p);
    q := t.pages[p].parent.value;
    i :| 0 <= i < |t.pages[q].entries| && t.pages[q].entries[i].child == p;
    Kid(t, b, q, i);
  }

  /** Two pages of one level cover ranges that do not overlap. */
  lemma {:induction false} SameLevelApart(t: Tree, b: Bounds, x: PageId, y: PageId)
    requires Inv(t, b) && x in t.pages && y in t.pages && x != y
    requires Level(t.pages[x]) == Level(t.pages[y])
    ensures ExtLe(b[x].hi, b[y].lo) || ExtLe(b[y].hi, b[x].lo)
    decreases Level(t.pages[t.root]) - Level(t.pages[x])
  {
    hide ContentOk;
    assert PageOk(t, b, x) && PageOk(t, b, y);
    if x == t.root {
      var q, i := Up(t, b, y);
    } else if y == t.root {
      var q, i := Up(t, b, x);
    } else {
      var qx, i := Up(t, b, x);
      var qy, j := Up(t, b, y);
      ApartStep(t, b, qx, i, qy, j);
      if qx != qy {
        SameLevelApart(t, b, qx, qy);
        ExtChain(b[x], b[qx], b[y], b[qy]);
      }
    }
  }

  lemma ApartStep(t: Tree, b: Bounds, qx: PageId, i: nat, qy: PageId, j: nat)
    requires Inv(t, b) && IsBranch(t, qx) && IsBranch(t, qy)
    requires i < |t.pages[qx].entries| && j < |t.pages[qy].entries|
    requires KidOk(t, b, qx, i) && KidOk(t, b, qy, j)
    requires t.pages[qx].entries[i].child != t.pages[qy].entries[j].child
    ensures var x, y := t.pages[qx].entries[i].child, t.pages[qy].entries[j].child;
      && ExtLe(b[qx].lo, b[x].lo) && ExtLe(b[x].hi, b[qx].hi)
      && ExtLe(b[qy].lo, b[y].lo) && ExtLe(b[y].hi, b[qy].hi)
      && (qx == qy ==> ExtLe(b[x].hi, b[y].lo) || ExtLe(b[y].hi, b[x].lo))
  {
    assert PageOk(t, b, qx) && PageOk(t, b, qy);
    ChildRangeNested(t.pages[qx].entries, b[qx], i, t.unique);
    ChildRangeNested(t.pages[qy].entries, b[qy], j, t.unique);
    if qx == qy {
      if i < j {
        ChildRangesApart(t.pages[qx].entries, b[qx], i, j);
      } else {
        ChildRangesApart(t.pages[qx].entries, b[qx], j, i);
      }
    }
  }

  lemma ExtChain(x: Range, qx: Range, y: Range, qy: Range)
    requires ExtLe(qx.lo, x.lo) && ExtLe(x.hi, qx.hi) && ExtLe(qy.lo, y.lo) && ExtLe(y.hi, qy.hi)
    requires ExtLt(x.lo, x.hi) && ExtLt(y.lo, y.hi)
    ensures ExtLe(qx.hi, qy.lo) ==> ExtLe(x.hi, y.lo)
    ensures ExtLe(qy.hi, qx.lo) ==> ExtLe(y.hi, x.lo)
  {
  }

  /** So at each level at most one page is the target of a probe. */
  lemma TargetUnique(t: Tree, b: Bounds, x: PageId, y: PageId, p: Probe)
    requires Inv(t, b) && x in t.pages && y in t.pages
    requires Level(t.pages[x]) == Level(t.pages[y])
    requires Targets(p, b[x]) && Targets(p, b[y])
    ensures x == y
  {
    assert PageOk(t, b, x) && PageOk(t, b, y);
    if x != y {
      SameLevelApart(t, b, x, y);
      ApartNotBoth(b[x], b[y], p);
    }
  }

  lemma ApartNotBoth(x: Range, y: Range, p: Probe)
    requires ExtLt(x.lo, x.hi) && ExtLt(y.lo, y.hi)
    requires ExtLe(x.hi, y.lo) || ExtLe(y.hi, x.lo)
    ensures !(Targets(p, x) && Targets(p, y))
  {
    if x.hi.Fin? && y.lo.Fin? && Le(x.hi.k, y.lo.k) && Before(y.lo.k, p) { BeforeMonotone(x.hi.k, y.lo.k, p); }
    if y.hi.Fin? && x.lo.Fin? && Le(y.hi.k, x.lo.k) && Before(x.lo.k, p) { BeforeMonotone(y.hi.k, x.lo.k, p); }
  }

  // ---------- slots ----------

  lemma SlotUnique(s: seq<Key>, p: Probe, i: nat, j: nat)
    requires IsSlotFor(s, p, i) && IsSlotFor(s, p, j)
    ensures i == j
  {
  }

  /** Searching the parent for anything that belongs to a page finds the page's own entry. */
  lemma OwnSlot(es: seq<Entry>, r: Range, i: nat, p: Probe, unique: bool)
    requires EntriesOk(es, r, unique) && i < |es| && Targets(p, ChildRange(es, r, i))
    ensures IsSlotFor(Seps(es), p, i)
  {
    var s := Seps(es);
    forall j | 0 <= j < i ensures Before(s[j], p) {
      if j < i - 1 {
        BeforeMonotone(s[j], s[i - 1], p);
      }
    }
  }

  lemma DownSlot(es: seq<Entry>, r: Range, i: nat, p: Probe)
    requires |es| > 0 && IsSlotFor(Seps(es), p, i) && Targets(p, r)
    ensures Targets(p, ChildRange(es, r, i))
  {
    if i > 0 { assert Before(Seps(es)[i - 1], p); }
  }

  lemma InTargets(k: Key, r: Range)
    ensures In(k, r) <==> Targets(ByRecord(k), r)
  {
  }
}
