/** What a record update finds in its leaf and does to it (src/core/LeafPage.cpp:224-303,
    src/statement/DeleteStatement.cpp:180-280, src/statement/UpdateStatement.cpp:178-330). */
module RecordUpdates {
  import opened KeyOrder
  import opened PageIds
  import opened Pages
  import opened Search
  import opened LeafCuts
  import opened TreeInv
  import opened LeafChain
  import opened Ranges
  import opened SettleOrder
  import opened TreeState
  import opened TreeUpdate

  datatype Action = INSERT | DELETE | UPDATE

  /** How an update ends: as the source reports it; or at a null pointer, at the failed assertion of a DELETE that finds
      no record, or in a forced split that goes wrong. */
  datatype RecordResult = IN_PAGE | DUPLICATE | CONFLICT | NULL_READ | ASSERTED(wrong: bool) | STUCK

  /** How a statement in place ends; NULL_KEY: at a null pointer. */
  datatype HandleResult = HANDLED | NOT_FOUND | REFUSED | NULL_KEY

  /** The search for p compares a record without bytes in its leaf. */
  ghost predicate SearchNull(t: Tree, b: Bounds, p: Probe) {
    exists x :: x in t.pages && x in b && t.pages[x].Leaf? && Targets(p, b[x]) && HitsNull(t.unique, t.pages[x].recs, p)
  }

  lemma SearchNullAt(t: Tree, b: Bounds, leaf: PageId, p: Probe)
    requires Inv(t, b) && leaf in t.pages && leaf in b && t.pages[leaf].Leaf? && Targets(p, b[leaf])
    ensures SearchNull(t, b, p) <==> HitsNull(t.unique, t.pages[leaf].recs, p)
  {
    hide Inv, Targets, HitsNull;
    forall x | x in t.pages && x in b && t.pages[x].Leaf? && Targets(p, b[x]) ensures x == leaf {
      TargetUnique(t, b, x, leaf, p);
    }
  }

  /** A record without bytes makes every search for its key read through a null pointer. */
  lemma LostSearchNull(t: Tree, b: Bounds, x: PageId, i: nat)
    requires Inv(t, b) && x in t.pages && t.pages[x].Leaf? && i < |t.pages[x].recs| && NoBytes(t.pages[x].recs[i])
    ensures SearchNull(t, b, ByRecord(t.pages[x].recs[i].key))
    ensures t.unique ==> SearchNull(t, b, ByKey(t.pages[x].recs[i].key.key))
  {
    hide Inv, HitsNull, Compares;
    LeafSorted(t, b, x);
    var s := t.pages[x].recs;
    var k := s[i].key;
    forall j | 0 <= j < |s| ensures (Before(s[j].key, ByRecord(k)) <==> j < i) && (t.unique ==>
        s[j].key.val == 0.0 && (Before(s[j].key, ByKey(k.key)) <==> j < i)) {
      if j < i { assert Lt(s[j].key, s[i].key); } else if i < j { assert Lt(s[i].key, s[j].key); }
    }
    PlaceAt(s, ByRecord(k), i);
    LostHitsNull(t.unique, s, ByRecord(k), i);
    assert Targets(ByRecord(k), b[x]);
    if t.unique {
      PlaceAt(s, ByKey(k.key), i);
      LostHitsNull(true, s, ByKey(k.key), i);
      KeyTargets(t, b, x, k);
    }
  }

  lemma PlaceAt(s: seq<Rec>, p: Probe, i: nat)
    requires SortedRecs(s) && i < |s| && forall j :: 0 <= j < |s| ==> (Before(s[j].key, p) <==> j < i)
    ensures PlaceOf(s, p) == i
  {
    PlaceIs(s, p);
    var n := PlaceOf(s, p);
    assert n < |s| ==> (Before(s[n].key, p) <==> n < i);
    assert !Before(s[i].key, p);
  }

  lemma KeyTargets(t: Tree, b: Bounds, x: PageId, k: Key)
    requires Inv(t, b) && t.unique && x in t.pages && x in b && k.val == 0.0 && In(k, b[x])
    ensures Targets(ByKey(k.key), b[x])
  {
    BorderVals(t, b, x);
  }

  /** Page ranges of a unique index end at keys without a value part. */
  lemma {:induction false} BorderVals(t: Tree, b: Bounds, x: PageId)
    requires Inv(t, b) && t.unique && x in t.pages
    ensures x in b && (b[x].lo.Fin? ==> b[x].lo.k.val == 0.0) && (b[x].hi.Fin? ==> b[x].hi.k.val == 0.0)
    decreases Level(t.pages[t.root]) - Level(t.pages[x])
  {
    assert PageOk(t, b, x);
    if x != t.root {
      var q, i := Up(t, b, x);
      BorderVals(t, b, q);
    }
  }

  /** No search in a tree whose records all stay. */
  lemma WholeNoNull(t: Tree, b: Bounds, p: Probe)
    requires Inv(t, b) && Whole(t)
    ensures !SearchNull(t, b, p)
  {
    hide Inv, Visits, Targets;
    forall x | x in t.pages && t.pages[x].Leaf? ensures !HitsNull(t.unique, t.pages[x].recs, p) {
      WholeAt(t, x);
    }
  }

  /** The leaf after UpdateAction, before a forced split. */
  function UpdatedPage(top: Page, pos: nat, bFind: bool, act: Action, lr: Rec, conflict: bool): (r: Page)
    requires top.Leaf? && if bFind then pos < |top.recs| else pos <= |top.recs|
    ensures r.Leaf?
  {
    var r := if bFind then ReleasedPage(top, pos) else top;
    var has := bFind && !r.recs[pos].mark;
    if (act == DELETE && !has) || (has && (act == INSERT || conflict)) then r else PutPage(r, pos, bFind, lr)
  }

  predicate ErasesUnfinished(x: Rec) {
    x.mark && !x.gone
  }

  predicate Refused(res: RecordResult) {
    res.DUPLICATE? || res.CONFLICT? || res.ASSERTED?
  }

  ghost predicate AtPlace(s: seq<Rec>, k: Key, pos: nat, bFind: bool) {
    IsLowerBound(s, ByRecord(k), pos) && (bFind <==> pos < |s| && s[pos].key == k)
  }

  /** The leaf after a statement in place. */
  function HandledPage(top: Page, pos: nat, act: Action, lr: Rec): (r: Page)
    requires top.Leaf? && pos < |top.recs|
    ensures r.Leaf?
  {
    var r := ReleasedPage(top, pos);
    if act == DELETE then PutPage(r, pos, true, lr) else ReplacedPage(r, pos, lr)
  }

  /** The record held with the key of lr is charged as much as lr. */
  ghost predicate SameLength(s: seq<Rec>, lr: Rec) {
    forall y :: y in s && y.key == lr.key && !y.mark ==> y.temp == lr.temp
  }

  lemma PlaceReleased(top: Page, pos: nat, lr: Rec)
    requires top.Leaf? && pos < |top.recs| && Place(top.recs, pos, true, lr) && AllFit(top.recs, MAX_LEAF)
    ensures ReleasedPage(top, pos).Leaf?
    ensures var s := ReleasedPage(top, pos).recs;
      && |s| == |top.recs| && Place(s, pos, true, lr) && !s[pos].due && s[pos].mark == top.recs[pos].mark
      && s[pos].gone == top.recs[pos].gone && Covering(lr, s, pos, true) == Covering(lr, top.recs, pos, true)
      && s[pos] == AfterRelease(top.recs[pos]) && forall i :: 0 <= i < |s| ==> s[i].key == top.recs[i].key
  {
    assert RecFit(top.recs[pos], MAX_LEAF);
    var s := ReleasedPage(top, pos).recs;
    assert forall i :: 0 <= i < |s| ==> s[i] == if i == pos then AfterRelease(top.recs[pos]) else top.recs[i];
  }

  /** What lies behind a place in its leaf. */
  lemma RecordBehind(t: Tree, b: Bounds, leaf: PageId, pos: nat, bFind: bool, lr: Rec)
    requires Inv(t, b) && leaf in t.pages && t.pages[leaf].Leaf? && Place(t.pages[leaf].recs, pos, bFind, lr)
    ensures var s := t.pages[leaf].recs; var behind := if bFind then pos + 1 else pos;
      behind < |s| <==> exists y :: y in s && Lt(lr.key, y.key)
  {
    LeafSorted(t, b, leaf);
    var s := t.pages[leaf].recs;
    var behind := if bFind then pos + 1 else pos;
    if behind < |s| {
      assert !Before(s[pos].key, ByRecord(lr.key));
      if bFind { assert Lt(s[pos].key, s[behind].key); }
      assert s[behind] in s && Lt(lr.key, s[behind].key);
    }
    if y :| y in s && Lt(lr.key, y.key) {
      var j :| 0 <= j < |s| && s[j] == y;
      if j < pos { assert Before(s[j].key, ByRecord(lr.key)); }
    }
  }

  lemma LeavesBefore(t: Tree, b: Bounds, chain: seq<PageId>, c: nat)
    requires Inv(t, b) && ChainOk(t, b, chain) && c < |chain|
    ensures Leaves(t, chain) && Leaves(t, chain[..c])
  {
    ChainLeaves(t, b, chain);
  }

  /** Where a stored record stands. */
  lemma StoredWhere(t: Tree, b: Bounds, chain: seq<PageId>, queue: set<PageId>, level: nat, rs: seq<IndexRange>, k: Key)
    requires Sound(t, b, chain, queue, level, rs) && exists y :: y in Stored(t, chain) && y.key == k
    ensures exists q, i :: q in t.pages && t.pages[q].Leaf? && 0 <= i < |t.pages[q].recs| && t.pages[q].recs[i].key == k
  {
    hide Inv, Contents, Live;
    ChainLeaves(t, b, chain);
    assert Leaves(t, chain);
    var y :| y in Stored(t, chain) && y.key == k;
    LiveHas(Contents(t, chain), y);
    var z :| z in Contents(t, chain) && y == AfterRelease(z);
    assert y.key == AfterRelease(z).key;
    assert AfterRelease(z).key == z.key;
    var d, m := ContentsFrom(t, chain, z);
    assert chain[d] in t.pages && t.pages[chain[d]].Leaf? && t.pages[chain[d]].recs[m].key == k;
  }

  lemma KeyPlace(t: Tree, b: Bounds, chain: seq<PageId>, queue: set<PageId>, level: nat, rs: seq<IndexRange>,
                 q: PageId, i: nat, x: Rec) returns (c: nat)
    requires Sound(t, b, chain, queue, level, rs)
    requires q in t.pages && t.pages[q].Leaf? && i < |t.pages[q].recs| && t.pages[q].recs[i].key == x.key
    ensures c < |chain| && chain[c] == q && q in b && In(x.key, b[q]) && Place(t.pages[q].recs, i, true, x)
    ensures Targets(ByRecord(x.key), b[q])
  {
    hide RangesOk, QueueOk;
    c := InChain(t, b, chain, q);
    LeafSorted(t, b, q);
    hide Inv, ChainOk;
    InTargets(x.key, b[q]);
    var s := t.pages[q].recs;
    forall j | 0 <= j < |s| ensures Before(s[j].key, ByRecord(x.key)) <==> j < i {
      if j < i { assert Lt(s[j].key, s[i].key); } else if i < j { assert Lt(s[i].key, s[j].key); }
    }
  }

  /** In a unique index a search by key finds the record with the key. */
  lemma KeyPlaceFound(t: Tree, b: Bounds, chain: seq<PageId>, c: nat, pos: nat, bFind: bool, lr: Rec)
    requires Inv(t, b) && t.unique && ChainOk(t, b, chain) && c < |chain| && lr.key.val == 0.0
    requires Targets(ByKey(lr.key.key), b[chain[c]]) && IsLowerBound(t.pages[chain[c]].recs, ByKey(lr.key.key), pos)
    requires bFind <==> pos < |t.pages[chain[c]].recs| && Matches(t.pages[chain[c]].recs[pos].key, ByKey(lr.key.key))
    ensures Targets(ByRecord(lr.key), b[chain[c]]) && IsLowerBound(t.pages[chain[c]].recs, ByRecord(lr.key), pos)
    ensures bFind <==> pos < |t.pages[chain[c]].recs| && Matches(t.pages[chain[c]].recs[pos].key, ByRecord(lr.key))
  {
    LeafSorted(t, b, chain[c]);
    BorderVals(t, b, chain[c]);
  }

  lemma HeldLength(t: Tree, b: Bounds, chain: seq<PageId>, c: nat, pos: nat, lr: Rec)
    requires Inv(t, b) && ChainOk(t, b, chain) && c < |chain| && In(lr.key, b[chain[c]])
    requires Place(t.pages[chain[c]].recs, pos, true, lr) && !t.pages[chain[c]].recs[pos].mark
    requires AllFit(t.pages[chain[c]].recs, MAX_LEAF)
    ensures SameLength(Stored(t, chain), lr) ==> AfterRelease(t.pages[chain[c]].recs[pos]).temp == lr.temp
  {
    ChainLeaves(t, b, chain);
    hide Inv, ChainOk, In;
    var y := t.pages[chain[c]].recs[pos];
    assert RecFit(y, MAX_LEAF);
    HeldIff(t, b, chain, c, pos, true, lr, AfterRelease(y));
    hide Stored;
  }

  /** A record with the key that is not under a DELETE. */
  ghost predicate Holds(s: seq<Rec>, k: Key) {
    exists x :: x in s && x.key == k && !x.mark
  }

  /** The record with the key is under a DELETE that has not ended. */
  ghost predicate Marked(s: seq<Rec>, k: Key) {
    exists x :: x in s && x.key == k && x.mark
  }

  /** The committed length a new record with key k covers. */
  ghost predicate CoversLength(s: seq<Rec>, k: Key, n: nat) {
    && (forall y :: y in s && y.key == k && !y.mark ==> n == y.clen)
    && (!Holds(s, k) ==> n == 0)
  }

  lemma KeyOnlyOk(lr: Rec, unique: bool)
    requires RecOk(lr, unique)
    ensures ProbeOk(unique, ByRecord(lr.key))
  {
  }

  lemma PlaceFound(t: Tree, b: Bounds, chain: seq<PageId>, c: nat, pos: nat, bFind: bool, lr: Rec)
    requires Inv(t, b) && ChainOk(t, b, chain) && c < |chain| && Targets(ByRecord(lr.key), b[chain[c]])
    requires IsLowerBound(t.pages[chain[c]].recs, ByRecord(lr.key), pos)
    requires bFind <==> pos < |t.pages[chain[c]].recs| && Matches(t.pages[chain[c]].recs[pos].key, ByRecord(lr.key))
    ensures In(lr.key, b[chain[c]]) && Place(t.pages[chain[c]].recs, pos, bFind, lr)
    ensures AtPlace(t.pages[chain[c]].recs, lr.key, pos, bFind)
    ensures var s, all := t.pages[chain[c]].recs, Stored(t, chain);
      && pos <= |s| && (bFind ==> pos < |s| && (s[pos].gone ==> s[pos].mark))
      && (Holds(all, lr.key) <==> bFind && !s[pos].mark)
      && (Marked(all, lr.key) <==> bFind && s[pos].mark && !s[pos].gone)
      && ((exists y :: y in all && y.key == lr.key) <==> bFind && !s[pos].gone)
      && var x := Covering(lr, s, pos, bFind);
        CoversLength(all, lr.key, x.clen) && x == lr.(clen := x.clen, comm := x.clen)
  {
    InTargets(lr.key, b[chain[c]]);
    LeafSorted(t, b, chain[c]);
    hide Inv, ChainOk, IsLowerBound, Stored, In;
    var s := t.pages[chain[c]].recs;
    forall y ensures y in Stored(t, chain) && y.key == lr.key <==> bFind && !s[pos].gone && y == AfterRelease(s[pos]) {
      HeldIff(t, b, chain, c, pos, bFind, lr, y);
    }
  }

  /** Without assertions a DELETE that finds no record goes over the record behind its place: the leaf stays sorted, and
      that record, of another key, is the one it loses. */
  lemma WrongCovered(s: seq<Rec>, pos: nat, x: Rec)
    requires SortedRecs(s) && AtPlace(s, x.key, pos, false) && pos < |s|
    ensures var u := Put(s, pos, true, x);
      && SortedRecs(u) && Lt(x.key, s[pos].key)
      && (forall y :: y in u <==> (y in s && y != s[pos]) || y == x)
      && (forall y :: y in u ==> y.key != s[pos].key)
  {
    var u := Put(s, pos, true, x);
    assert !Before(s[pos].key, ByRecord(x.key));
    forall j | 0 <= j < |u| ensures u[j] == if j == pos then x else s[j] {
    }
    forall i, j | 0 <= i < j < |u| ensures Lt(u[i].key, u[j].key) {
      assert Lt(s[i].key, s[j].key);
      if j == pos { assert Before(s[i].key, ByRecord(x.key)); }
    }
    forall y ensures y in u <==> (y in s && y != s[pos]) || y == x {
      if y in s && y != s[pos] { var j :| 0 <= j < |s| && s[j] == y; assert u[j] == y; }
      if y in u && y != x {
        var j :| 0 <= j < |u| && u[j] == y;
        if j < pos { assert Lt(s[j].key, s[pos].key); } else { assert Lt(s[pos].key, s[j].key); }
      }
      if x in s { var j :| 0 <= j < |s| && s[j] == x; assert Before(s[j].key, ByRecord(x.key)) <==> j < pos; }
    }
    forall y | y in u ensures y.key != s[pos].key {
      var j :| 0 <= j < |u| && u[j] == y;
      if j < pos { assert Lt(s[j].key, s[pos].key); } else if j > pos { assert Lt(s[pos].key, s[j].key); }
    }
  }
}
