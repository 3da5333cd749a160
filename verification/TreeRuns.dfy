/** Whole runs of one index: record updates, ends of statements, scans, settling passes and changes of the number of
    index tasks leave a sound tree that holds what a plain map from keys to version chains holds.

    A run stops where the code goes wrong: at a null pointer, at a failed assertion, or in a split that finds no
    record; `Stops` says on the state before the operation when that is. */
module TreeRuns {
  import opened KeyOrder
  import opened PageIds
  import opened Pages
  import opened Search
  import opened LeafCuts
  import opened TreeInv
  import opened LeafChain
  import opened SettleOrder
  import opened TreeState
  import opened ForcedSplits
  import opened LeafLevel
  import opened TreeUpdate
  import opened TreeScan
  import opened RecordUpdates
  import opened IndexTree
  import opened Tables
  import opened LeafRuns
  import V = RecordVersions

  // ---------- where a run stops ----------

  /** The update passes the threshold of its leaf, which then cannot be split. */
  ghost predicate SplitsStuck(t: Tree, b: Bounds, op: Op, lr: Rec, p: PageId, pos: nat, bFind: bool)
    requires op.Update?
  {
    && p in t.pages && t.pages[p].Leaf? && p in b && Targets(ByRecord(lr.key), b[p])
    && AtPlace(t.pages[p].recs, lr.key, pos, bFind)
    && var has := bFind && !t.pages[p].recs[pos].mark;
      && !(has && (op.act == INSERT || (op.act == DELETE && op.conflict))) && (op.act == DELETE ==> has)
      && var y := UpdatedPage(t.pages[p], pos, bFind, op.act, lr, op.conflict);
        NeedForceSplit(y) && Stuck(y)
  }

  ghost predicate SomeStuck(t: Tree, b: Bounds, op: Op, lr: Rec)
    requires op.Update?
  {
    exists p, pos, bFind :: SplitsStuck(t, b, op, lr, p, pos, bFind)
  }

  ghost predicate Stops(kind: IndexKind, t: Tree, b: Bounds, chain: seq<PageId>, m: IndexMap, op: Op)
    requires Leaves(t, chain)
  {
    match op
    case Update(act, k, _, _, _, _, _) =>
      if InPlace(kind, op) then SearchNull(t, b, ByKey(k.key))
      else SearchNull(t, b, ByRecord(k)) || Misses(kind, m, op) || SomeStuck(t, b, op, NewRec(kind, op))
    case End(_, _, _) => false
    case Scan(first, last, point) =>
      SearchNull(t, b, ByKey(first)) || (!point && RunsIntoNull(Contents(t, chain), first, last))
    case Settle => !AllSplittable(t)
    case Allot(_) => false
  }

  /** An operation after which the recorded lengths no longer cover what the records are charged, or (`lean`) the
      committed one exceeds it. */
  predicate Unweighs(kind: IndexKind, m: IndexMap, op: Op, lean: bool) {
    Resizes(kind, m, op) || (lean && Erases(kind, m, op))
  }

  /** No DELETE misses and nothing is dropped. */
  predicate Keeps(kind: IndexKind, m: IndexMap, op: Op) {
    !Misses(kind, m, op) && !Drops(m, op)
  }

  /** The tree follows the reference for one leaf. */
  ghost predicate Follows(o: LeafOutcome, t: Tree, ok: bool) {
    && (o.Went? ==> ok && OneLeaf(t, o.page)) && (o.Stopped? ==> !ok)
    && (o.Rests? ==> ok && o.page.Leaf? && (OneLeaf(t, o.page) || OneLeaf(t, SavedPage(o.page))))
  }

  // ---------- what an operation does to the pages ----------

  /** The leaf and the place of an update. */
  ghost predicate SpotOf(t: Tree, b: Bounds, k: Key, p: PageId, pos: nat, bFind: bool) {
    && p in t.pages && t.pages[p].Leaf? && p in b && Targets(ByRecord(k), b[p])
    && AtPlace(t.pages[p].recs, k, pos, bFind)
  }

  /** The update changes its leaf; past the threshold the leaf is split at once. */
  ghost predicate UpdatedAt(kind: IndexKind, t: Tree, t': Tree, op: Op, p: PageId, pos: nat, bFind: bool)
    requires op.Update? && p in t.pages && t.pages[p].Leaf? && AtPlace(t.pages[p].recs, op.key, pos, bFind)
  {
    var has := bFind && !t.pages[p].recs[pos].mark;
    var refused := has && (op.act == INSERT || (op.act == DELETE && op.conflict));
    var y := UpdatedPage(t.pages[p], pos, bFind, op.act, NewRec(kind, op), op.conflict);
    if refused || !NeedForceSplit(y) then t' == WithLeaf(t, p, y) else SplitUp(WithLeaf(t, p, y), t', p)
  }

  ghost predicate UpdatedTo(kind: IndexKind, t: Tree, b: Bounds, t': Tree, op: Op)
    requires op.Update?
  {
    exists p, pos, bFind {:trigger SpotOf(t, b, op.key, p, pos, bFind)} ::
      SpotOf(t, b, op.key, p, pos, bFind) && UpdatedAt(kind, t, t', op, p, pos, bFind)
  }

  /** Every overlong leaf is cut into the greedy chunks of its records, every page fits, and then some leaves are
      saved. */
  ghost predicate SettledTo(t: Tree, t': Tree) {
    exists u, queue, changed {:trigger SavedTree(u, queue, changed)} ::
      TreeSettled(t, u) && t' == SavedTree(u, queue, changed)
  }

  ghost predicate Reshaped(kind: IndexKind, t: Tree, b: Bounds, t': Tree, op: Op) {
    match op
    case Update(_, _, _, _, _, _, _) => if InPlace(kind, op) then SameBranches(t, t') else UpdatedTo(kind, t, b, t', op)
    case End(_, _, _) => SameBranches(t, t')
    case Scan(_, _, _) => SameBranches(t, t')
    case Settle => SettledTo(t, t')
    case Allot(_) => t' == t
  }

  /** The one place of an update. */
  lemma StuckSpot(t: Tree, b: Bounds, op: Op, lr: Rec, p: PageId, pos: nat, bFind: bool)
    requires op.Update? && Inv(t, b) && p in t.pages && t.pages[p].Leaf? && p in b && Targets(ByRecord(lr.key), b[p])
    requires AtPlace(t.pages[p].recs, lr.key, pos, bFind)
    ensures SomeStuck(t, b, op, lr) <==> SplitsStuck(t, b, op, lr, p, pos, bFind)
  {
    hide Inv, Targets, AtPlace, UpdatedPage, NeedForceSplit, Stuck;
    LeafSorted(t, b, p);
    PlaceIsSpot(t.pages[p].recs, lr.key, pos, bFind);
    forall p', pos', f' | SplitsStuck(t, b, op, lr, p', pos', f') ensures p' == p && pos' == pos && f' == bFind {
      TargetUnique(t, b, p', p, ByRecord(lr.key));
      PlaceIsSpot(t.pages[p].recs, lr.key, pos', f');
    }
  }

  /** In a tree of one leaf every search ends there. */
  lemma OneLeafSearch(t: Tree, b: Bounds, page: Page, p: Probe)
    requires Inv(t, b) && OneLeaf(t, page)
    ensures t.root in b && Targets(p, b[t.root]) && t.pages[t.root] == page && SortedRecs(page.recs)
    ensures SearchNull(t, b, p) <==> HitsNull(t.unique, page.recs, p)
    ensures forall x :: x in t.pages ==> x == t.root
  {
    LeafSorted(t, b, t.root);
    SearchNullAt(t, b, t.root, p);
  }

  lemma OneLeafAfter(t: Tree, page: Page, y: Page)
    requires OneLeaf(t, page) && y.Leaf?
    ensures OneLeaf(WithLeaf(t, t.root, y), y)
  {
  }

  lemma TreeFacts(tree: IndexTree)
    requires tree.Valid()
    ensures Inv(tree.T(), tree.bounds) && Leaves(tree.T(), tree.chain)
  {
    SoundParts(tree.T(), tree.bounds, tree.chain, tree.queue, tree.splitLevel, tree.ranges);
    ChainLeaves(tree.T(), tree.bounds, tree.chain);
  }

  // ---------- one operation ----------

  method StepUpdate(kind: IndexKind, tree: IndexTree, m: IndexMap, op: Op) returns (ok: bool)
    requires op.Update? && !InPlace(kind, op)
    requires tree.Valid() && tree.unique == (kind != NON_UNIQUE) && Represents(kind, tree.Records(), m) &&
        Legal(kind, m, op)
    modifies tree, tree.store, tree.store.garbage
    ensures tree.Valid() && old(Leaves(tree.T(), tree.chain))
    ensures ok ==> Represents(kind, tree.Records(), Apply(kind, m, op))
    ensures ok <==> !old(Stops(kind, tree.T(), tree.bounds, tree.chain, m, op))
    ensures forall lean :: ok && old(Weighed(tree.T(), lean)) && !Unweighs(kind, m, op, lean) ==>
        Weighed(tree.T(), lean)
    ensures old(Whole(tree.T())) && Keeps(kind, m, op) ==> ok
    ensures old(Whole(tree.T())) && Keeps(kind, m, op) ==> Whole(tree.T())
    ensures ok ==> UpdatedTo(kind, old(tree.T()), old(tree.bounds), tree.T(), op)
    ensures (old(Low(tree.T())) ==> Low(tree.T())) && Queued(old(tree.T()), tree.T(), tree.queue)
    ensures old(tree.queue) <= tree.queue
    ensures forall p :: old(OneLeaf(tree.T(), p)) ==> Follows(UpdateStep(kind, p, op), tree.T(), ok)
  {
    hide Low, Queued, SplitUp, RecOk, Holds, IndexTree.Valid, IndexTree.Records, Represents, ItemOk, View, ValOk,
        Marked, CoversLength, Targets, V.IsConflict, V.Updated, Weighed, Whole, SearchNull, AtPlace, SomeStuck,
        UpdatedPage, NeedForceSplit, Stuck, AfterRelease, Inv, Leaves, HitsNull, Lt;
    ghost var s, t, b, chain := tree.Records(), tree.T(), tree.bounds, tree.chain;
    TreeFacts(tree);
    HeldByMap(kind, s, m, op.key);
    NewRecOk(kind, m, op);
    var res;
    ghost var x, p, pos, bFind;
    res, x, p, pos, bFind := tree.UpdateAction(op.act, NewRec(kind, op), op.conflict);
    ok := res != NULL_READ && !res.ASSERTED? && !res.STUCK?;
    if res != NULL_READ { StuckSpot(t, b, op, NewRec(kind, op), p, pos, bFind); }
    if ok && !Refused(res) && !(Held(m, op.key) && op.conflict) { UpdateStored(kind, s, tree.Records(), m, op, x); }
    if ok { UpdateReshapes(kind, t, b, tree.T(), op, res, p, pos, bFind); }
    hide Stops, UpdateStep, Follows, Refused, SplitsStuck, UpdatedTo;
    forall q | OneLeaf(t, q) ensures Follows(UpdateStep(kind, q, op), tree.T(), ok) {
      UpdateFollows(kind, t, b, tree.T(), op, res, p, pos, bFind, Held(m, op.key), q);
    }
  }

  /** What UpdateAction does to the pages. */
  lemma UpdateReshapes(kind: IndexKind, t: Tree, b: Bounds, t': Tree, op: Op, res: RecordResult, p: PageId, pos: nat,
                       bFind: bool)
    requires op.Update? && SpotOf(t, b, op.key, p, pos, bFind)
    requires res != NULL_READ && !res.ASSERTED? && !res.STUCK?
    requires var has := bFind && !t.pages[p].recs[pos].mark;
      && (res == DUPLICATE <==> op.act == INSERT && has) && (res == CONFLICT <==>
          op.act == DELETE && has && op.conflict)
      && var y := UpdatedPage(t.pages[p], pos, bFind, op.act, NewRec(kind, op), op.conflict);
        && (Refused(res) || (res.IN_PAGE? && !NeedForceSplit(y)) ==> t' == WithLeaf(t, p, y))
        && (res.IN_PAGE? && NeedForceSplit(y) ==> SplitUp(WithLeaf(t, p, y), t', p))
    ensures UpdatedTo(kind, t, b, t', op)
  {
    hide Targets, UpdatedPage, NeedForceSplit, NewRec, SplitUp;
    assert UpdatedAt(kind, t, t', op, p, pos, bFind);
  }

  /** UpdateAction in a tree of one leaf. */
  lemma UpdateFollows(kind: IndexKind, t: Tree, b: Bounds, t': Tree, op: Op, res: RecordResult, p: PageId, pos: nat,
                      bFind: bool, held: bool, q: Page)
    requires op.Update? && Inv(t, b) && OneLeaf(t, q) && p in t.pages && t.unique == (kind != NON_UNIQUE)
    requires res == NULL_READ <==> SearchNull(t, b, ByRecord(op.key))
    requires res != NULL_READ ==>
               && AtPlace(t.pages[p].recs, op.key, pos, bFind) && (held <==> bFind && !t.pages[p].recs[pos].mark)
               && (res == DUPLICATE <==> op.act == INSERT && held)
               && (res == CONFLICT <==> op.act == DELETE && held && op.conflict)
               && (res.ASSERTED? <==> op.act == DELETE && !held)
               && var y := UpdatedPage(t.pages[p], pos, bFind, op.act, NewRec(kind, op), op.conflict);
                 && (Refused(res) || (res.IN_PAGE? && !NeedForceSplit(y)) ==> t' == WithLeaf(t, p, y))
                 && (res.STUCK? <==> NeedForceSplit(y) && Stuck(y) && !Refused(res))
    ensures Follows(UpdateStep(kind, q, op), t', res != NULL_READ && !res.ASSERTED? && !res.STUCK?)
  {
    hide Inv, SearchNull, AtPlace, UpdatedPage, NeedForceSplit, Stuck, HitsNull, NewRec;
    OneLeafSearch(t, b, q, ByRecord(op.key));
    if res != NULL_READ {
      PlaceIsSpot(q.recs, op.key, pos, bFind);
      OneLeafAfter(t, q, UpdatedPage(q, pos, bFind, op.act, NewRec(kind, op), op.conflict));
    }
  }

  /** A value as long as the one it replaces. */
  lemma SameLengthHeld(kind: IndexKind, s: seq<Rec>, m: IndexMap, op: Op)
    requires op.Update? && op.act == UPDATE && Represents(kind, s, m) && Held(m, op.key)
    requires !op.conflict && InPlace(kind, op) && !Resizes(kind, m, op)
    ensures SameLength(s, NewRec(kind, op))
  {
    assert ItemOk(kind, m[op.key]);
  }

  method StepInPlace(kind: IndexKind, tree: IndexTree, m: IndexMap, op: Op) returns (ok: bool)
    requires InPlace(kind, op)
    requires tree.Valid() && tree.unique == (kind != NON_UNIQUE) && Represents(kind, tree.Records(), m) &&
        Legal(kind, m, op)
    modifies tree, tree.store, tree.store.garbage
    ensures tree.Valid() && old(Leaves(tree.T(), tree.chain))
    ensures ok ==> Represents(kind, tree.Records(), Apply(kind, m, op))
    ensures ok <==> !old(Stops(kind, tree.T(), tree.bounds, tree.chain, m, op))
    ensures forall lean :: ok && old(Weighed(tree.T(), lean)) && !Unweighs(kind, m, op, lean) ==>
        Weighed(tree.T(), lean)
    ensures old(Whole(tree.T())) ==> ok && Whole(tree.T())
    ensures SameBranches(old(tree.T()), tree.T()) && Queued(old(tree.T()), tree.T(), tree.queue)
    ensures old(tree.queue) <= tree.queue
    ensures forall p :: old(OneLeaf(tree.T(), p)) ==> Follows(HandleStep(kind, p, op), tree.T(), ok)
  {
    hide Queued, SameBranches, RecOk, Holds, IndexTree.Valid, IndexTree.Records, Represents, ItemOk, View, ValOk,
        CoversLength, Targets, V.IsConflict, V.Updated, Weighed, Whole, SearchNull, AtPlace, HandledPage, AfterRelease,
        Inv, Leaves, HitsNull, SameLength, Lt, ReleasedPage;
    ghost var s, t, b := tree.Records(), tree.T(), tree.bounds;
    TreeFacts(tree);
    HeldByMap(kind, s, m, op.key);
    NewRecOk(kind, m, op);
    var res;
    ghost var x, p, pos, bFind;
    res, x, p, pos, bFind := tree.HandleLeafRecord(op.act, NewRec(kind, op), op.conflict);
    ok := res != NULL_KEY;
    if ok && bFind { PlaceWithin(t.pages[p].recs, op.key, pos); }
    HandledBranches(t, tree.T(), p, pos, op.act, NewRec(kind, op));
    if res == HANDLED { UpdateStored(kind, s, tree.Records(), m, op, x); }
    if op.act == UPDATE && Held(m, op.key) && !op.conflict && !Resizes(kind, m, op) {
      SameLengthHeld(kind, s, m, op);
    }
    forall q | OneLeaf(t, q) ensures Follows(HandleStep(kind, q, op), tree.T(), ok) {
      OneLeafSearch(t, b, q, ByKey(op.key.key));
      if ok {
        PlaceIsSpot(q.recs, op.key, pos, bFind);
        if bFind {
          OneLeafAfter(t, q, HandledPage(q, pos, op.act, NewRec(kind, op)));
          ReleasedIsLeaf(q, pos);
          OneLeafAfter(t, q, ReleasedPage(q, pos));
        }
      }
    }
  }

  lemma PlaceWithin(s: seq<Rec>, k: Key, pos: nat)
    requires AtPlace(s, k, pos, true)
    ensures pos < |s|
  {
  }

  lemma HandledBranches(t: Tree, t': Tree, p: PageId, pos: nat, act: Action, lr: Rec)
    requires p in t.pages && t.pages[p].Leaf?
    requires || t' == t
             || (pos < |t.pages[p].recs|
                 && (t' == WithLeaf(t, p, ReleasedPage(t.pages[p], pos)) ||
                     t' == WithLeaf(t, p, HandledPage(t.pages[p], pos, act, lr))))
    ensures SameBranches(t, t')
  {
    OneLeafChanged(t, p, t'.pages[p]);
  }

  lemma ReleasedIsLeaf(p: Page, pos: nat)
    requires p.Leaf? && pos < |p.recs|
    ensures ReleasedPage(p, pos).Leaf?
  {
  }

  method StepEnd(kind: IndexKind, tree: IndexTree, m: IndexMap, op: Op)
    requires op.End?
    requires tree.Valid() && tree.unique == (kind != NON_UNIQUE) && Represents(kind, tree.Records(), m) &&
        Legal(kind, m, op)
    modifies tree, tree.store, tree.store.garbage
    ensures tree.Valid() && Represents(kind, tree.Records(), Apply(kind, m, op))
    ensures forall lean :: old(Weighed(tree.T(), lean)) ==> Weighed(tree.T(), lean)
    ensures old(Whole(tree.T())) && !Drops(m, op) ==> Whole(tree.T())
    ensures SameBranches(old(tree.T()), tree.T()) && Queued(old(tree.T()), tree.T(), tree.queue)
    ensures old(tree.queue) <= tree.queue
    ensures forall p :: old(OneLeaf(tree.T(), p)) ==> Follows(LeafStep(kind, p, m, op), tree.T(), true)
  {
    hide SameBranches, RecOk, IndexTree.Valid, IndexTree.Records, Represents, ItemOk, AfterEnd, Weighed, Whole, Targets,
        Inv, Leaves, EndedPage, Drops, Place, V.Updated;
    ghost var s, t, b := tree.Records(), tree.T(), tree.bounds;
    TreeFacts(tree);
    HeldByMap(kind, s, m, op.key);
    AfterEndOk(kind, s, m, op);
    ghost var p, pos;
    p, pos := tree.EndRecord(AfterEnd(kind, m, op));
    EndedStored(kind, s, tree.Records(), m, op);
    PlaceIsAt(t.pages[p].recs, pos, AfterEnd(kind, m, op));
    EndedIsLeaf(t.pages[p], pos, AfterEnd(kind, m, op));
    OneLeafChanged(t, p, tree.pages[p]);
    forall q | OneLeaf(t, q) ensures Follows(LeafStep(kind, q, m, op), tree.T(), true) {
      OneLeafSearch(t, b, q, ByRecord(op.key));
      PlaceIsAt(q.recs, pos, AfterEnd(kind, m, op));
      PlaceIsSpot(q.recs, op.key, pos, true);
      EndedIsLeaf(q, pos, AfterEnd(kind, m, op));
      OneLeafAfter(t, q, EndedPage(q, pos, AfterEnd(kind, m, op)));
    }
  }

  lemma PlaceIsAt(s: seq<Rec>, pos: nat, x: Rec)
    requires Place(s, pos, true, x)
    ensures AtPlace(s, x.key, pos, true) && pos < |s|
  {
  }

  lemma EndedIsLeaf(p: Page, pos: nat, x: Rec)
    requires p.Leaf? && pos < |p.recs|
    ensures EndedPage(p, pos, x).Leaf?
  {
  }

  method StepScan(kind: IndexKind, tree: IndexTree, m: IndexMap, op: Op) returns (ok: bool)
    requires op.Scan?
    requires tree.Valid() && tree.unique == (kind != NON_UNIQUE) && Legal(kind, m, op)
    modifies tree, tree.store, tree.store.garbage
    ensures tree.Valid() && tree.Records() == old(tree.Records()) && old(Leaves(tree.T(), tree.chain))
    ensures ok <==> !old(Stops(kind, tree.T(), tree.bounds, tree.chain, m, op))
    ensures forall lean :: old(Weighed(tree.T(), lean)) ==> Weighed(tree.T(), lean)
    ensures old(Whole(tree.T())) ==> ok && Whole(tree.T())
    ensures SameBranches(old(tree.T()), tree.T()) && Queued(old(tree.T()), tree.T(), tree.queue)
    ensures old(tree.queue) <= tree.queue
    ensures forall p :: old(OneLeaf(tree.T(), p)) ==> Follows(LeafStep(kind, p, m, op), tree.T(), ok)
  {
    hide SameBranches, Queued, IndexTree.Valid, IndexTree.Records, Weighed, Whole, Targets, Inv, Leaves, SearchNull,
        RunsIntoNull, Contents, ScannedRecs, HitsNull, ReleasedPage, Found;
    ghost var t, b, chain := tree.T(), tree.bounds, tree.chain;
    TreeFacts(tree);
    if Whole(t) {
      WholeNoNull(t, b, ByKey(op.first));
      WholeNotInWay(tree, op.first, op.last);
    }
    var isNull;
    ghost var p, at, bFind;
    isNull, p, at, bFind := tree.ScanIndex(op.first, op.last, op.point);
    ok := !isNull;
    forall q | OneLeaf(t, q) ensures Follows(LeafStep(kind, q, m, op), tree.T(), ok) {
      OneLeafSearch(t, b, q, ByKey(op.first));
      if op.point && ok {
        PointSpot(t, b, q, op.first, at, bFind);
        if bFind {
          ReleasedIsLeaf(q, at);
          OneLeafAfter(t, q, ReleasedPage(q, at));
        }
      }
    }
  }

  /** In a unique index the record with a key is the one at the key's place. */
  lemma PointSpot(t: Tree, b: Bounds, q: Page, kk: real, at: nat, bFind: bool)
    requires Inv(t, b) && OneLeaf(t, q) && t.unique
    requires if bFind then at < |q.recs| && q.recs[at].key.key == kk else forall y :: y in q.recs ==> y.key.key != kk
    ensures Found(q.recs, Key(kk, 0.0)) <==> bFind
    ensures bFind ==> PlaceOf(q.recs, ByRecord(Key(kk, 0.0))) == at
  {
    var s, k := q.recs, Key(kk, 0.0);
    LeafSorted(t, b, t.root);
    PlaceIs(s, ByRecord(k));
    var n := PlaceOf(s, ByRecord(k));
    if bFind {
      assert s[at].key == k;
      forall j | 0 <= j < |s| ensures Before(s[j].key, ByRecord(k)) <==> j < at {
        if j < at { assert Lt(s[j].key, s[at].key); } else if at < j { assert Lt(s[at].key, s[j].key); }
      }
      PlaceAt(s, ByRecord(k), at);
    } else if n < |s| {
      assert s[n] in s;
    }
  }

  lemma WholeNotInWay(tree: IndexTree, first: real, last: real)
    requires tree.Valid() && Whole(tree.T()) && Leaves(tree.T(), tree.chain)
    ensures !RunsIntoNull(Contents(tree.T(), tree.chain), first, last)
  {
    var t, chain := tree.T(), tree.chain;
    hide IndexTree.Valid, Contents;
    forall g | 0 <= g < |Contents(t, chain)| ensures !NoBytes(Contents(t, chain)[g]) {
      var d, m := ContentsFrom(t, chain, Contents(t, chain)[g]);
      WholeAt(t, chain[d]);
      assert t.pages[chain[d]].recs[m] in t.pages[chain[d]].recs;
    }
  }

  /** One operation of a run. */
  method Step(kind: IndexKind, tree: IndexTree, m: IndexMap, op: Op) returns (ok: bool)
    requires tree.Valid() && tree.unique == (kind != NON_UNIQUE) && Represents(kind, tree.Records(), m) &&
        Legal(kind, m, op)
    modifies tree, tree.store, tree.store.garbage
    ensures tree.Valid() && old(Leaves(tree.T(), tree.chain))
    ensures ok ==> Represents(kind, tree.Records(), Apply(kind, m, op))
    ensures ok <==> !old(Stops(kind, tree.T(), tree.bounds, tree.chain, m, op))
    ensures forall lean :: ok && old(Weighed(tree.T(), lean)) && !Unweighs(kind, m, op, lean) ==>
        Weighed(tree.T(), lean)
    ensures old(Whole(tree.T())) && Keeps(kind, m, op) ==> ok && Whole(tree.T())
    ensures ok ==> Reshaped(kind, old(tree.T()), old(tree.bounds), tree.T(), op)
    ensures old(Low(tree.T())) ==> Low(tree.T())
    ensures Queued(old(tree.T()), tree.T(), tree.queue) && old(tree.queue) <= tree.queue
    ensures op.Allot? ==> tree.rootPage in tree.pages && |tree.ranges| == RangeCount(tree.T(), op.exptTaskNum)
    ensures forall p :: old(OneLeaf(tree.T(), p)) ==> Follows(LeafStep(kind, p, m, op), tree.T(), ok)
  {
    hide Low, Queued, SameBranches, UpdatedTo, TreeSettled, SavedTree, IndexTree.Valid, IndexTree.Records, Represents,
        Weighed, Whole, Leaves, UpdateStep, HandleStep, Unweighs, AllSplittable, SearchNull, RunsIntoNull, SomeStuck,
        Drops, AfterEnd, IsOverlength, Stuck, HitsNull, Found;
    ghost var t := tree.T();
    TreeFacts(tree);
    QueuedSame(t, tree.queue);
    ok := true;
    match op
    case Update(_, _, _, _, _, _, _) =>
      if InPlace(kind, op) {
        ok := StepInPlace(kind, tree, m, op);
        if Low(t) { SameBranchesLow(t, tree.T()); }
      } else {
        ok := StepUpdate(kind, tree, m, op);
      }
    case End(_, _, _) =>
      StepEnd(kind, tree, m, op);
      if Low(t) { SameBranchesLow(t, tree.T()); }
    case Scan(_, _, _) =>
      ok := StepScan(kind, tree, m, op);
      if Low(t) { SameBranchesLow(t, tree.T()); }
    case Settle =>
      var changed: set<PageId> := *;
      var stuck;
      ghost var u;
      stuck, u := tree.SettleUpdatedPages(changed);
      ok := !stuck;
      if ok { SettledNow(t, u, tree.queue, changed); }
      forall q | OneLeaf(t, q) ensures Follows(LeafStep(kind, q, m, op), tree.T(), ok) {
        OneLeafStuck(t, q);
        if ok && !IsOverlength(q) { OneLeafSettled(t, u, q, tree.queue, changed); }
      }
    case Allot(n) =>
      tree.AllotRanges(n);
  }

  lemma OneLeafStuck(t: Tree, page: Page)
    requires OneLeaf(t, page)
    ensures AllSplittable(t) <==> !(IsOverlength(page) && Stuck(page))
  {
    hide IsOverlength, Stuck;
    assert t.root in t.pages && t.pages[t.root] == page;
  }

  lemma SettledNow(t: Tree, u: Tree, queue: set<PageId>, changed: set<PageId>)
    requires TreeSettled(t, u)
    ensures SettledTo(t, SavedTree(u, queue, changed))
  {
    hide TreeSettled;
  }

  /** The splitting pass leaves a leaf that is not overlong alone; it may be saved. */
  lemma OneLeafSettled(t: Tree, u: Tree, page: Page, queue: set<PageId>, changed: set<PageId>)
    requires OneLeaf(t, page) && !IsOverlength(page) && TreeSettled(t, u)
    ensures var v := SavedTree(u, queue, changed); OneLeaf(v, page) || OneLeaf(v, SavedPage(page))
  {
    hide IsOverlength, LeafSettled, OneChunk, Fits, AtLimit, SavedPage;
    assert forall x :: x in t.pages ==> t.pages[x] == page;
    assert u == t;
    var v := SavedTree(t, queue, changed);
    assert v.pages.Keys == {t.root};
    assert v.pages == map[t.root := v.pages[t.root]];
    SavedIsLeaf(page);
  }

  lemma SavedIsLeaf(p: Page)
    requires p.Leaf?
    ensures SavedPage(p).Leaf?
  {
  }

  // ---------- runs ----------

  predicate KeepsAll(kind: IndexKind, m: IndexMap, ops: seq<Op>) {
    forall i :: 0 <= i < |ops| ==> Keeps(kind, ApplyAll(kind, m, ops[..i]), ops[i])
  }

  /** None of the first n operations takes the recorded lengths off. */
  predicate NeverUnweighs(kind: IndexKind, m: IndexMap, ops: seq<Op>, n: nat, lean: bool)
    requires n <= |ops|
  {
    forall i :: 0 <= i < n ==> !Unweighs(kind, ApplyAll(kind, m, ops[..i]), ops[i], lean)
  }

  /** The run has followed the reference for its first n operations, and not past a stop. */
  ghost predicate InStep(kind: IndexKind, p: Page, m: IndexMap, ops: seq<Op>, n: nat, t: Tree)
    requires p.Leaf? && n <= |ops|
  {
    && (forall i :: 0 <= i < n ==> !StopsAt(kind, p, m, ops, i))
    && var q := LeafAfter(kind, p, m, ops[..n]);
      q.Some? ==> OneLeaf(t, q.value)
  }

  /** The tree at one point of a run. */
  datatype Moment = Moment(t: Tree, b: Bounds)

  /** Each operation has reshaped the tree as it should. */
  ghost predicate TrailOk(kind: IndexKind, ops: seq<Op>, trail: seq<Moment>) {
    && |trail| <= |ops| + 1
    && forall i {:trigger trail[i]} :: 0 <= i < |trail| - 1 ==>
         Reshaped(kind, trail[i].t, trail[i].b, trail[i + 1].t, ops[i])
  }

  lemma TrailOn(kind: IndexKind, ops: seq<Op>, trail: seq<Moment>, t: Tree, b: Bounds)
    requires TrailOk(kind, ops, trail) && 0 < |trail| <= |ops|
    requires var n := |trail| - 1; Reshaped(kind, trail[n].t, trail[n].b, t, ops[n])
    ensures TrailOk(kind, ops, trail + [Moment(t, b)])
  {
    hide Reshaped;
  }

  lemma TrailStart(kind: IndexKind, ops: seq<Op>, t: Tree, b: Bounds)
    ensures TrailOk(kind, ops, [Moment(t, b)])
  {
  }

  /** A run works off the operations in order and stops exactly where one goes wrong; `t`, `b` and `chain` are the tree
      before that one.  If nothing is dropped and no DELETE misses it never stops.  While it lasts the recorded lengths
      cover the records, unless an UPDATE in place changes a length.  Every page that has changed is in the write
      queue, no branch page below the root is past the threshold, and each operation has done to the pages what it
      should (`trail`).  As long as the index is one leaf the run is that of the reference. */
  method Run(kind: IndexKind, tree: IndexTree, m: IndexMap, ops: seq<Op>)
    returns (done: nat, ghost t: Tree, ghost b: Bounds, ghost chain: seq<PageId>, ghost trail: seq<Moment>)
    requires tree.Valid() && tree.unique == (kind != NON_UNIQUE) && Represents(kind, tree.Records(), m) &&
        AllLegal(kind, m, ops)
    modifies tree, tree.store, tree.store.garbage
    ensures done <= |ops| && tree.Valid()
    ensures Inv(t, b) && ChainOk(t, b, chain) && Represents(kind, Stored(t, chain), ApplyAll(kind, m, ops[..done]))
    ensures done == |ops| ==> t == tree.T() && b == tree.bounds && chain == tree.chain
    ensures done < |ops| ==> Leaves(t, chain) && Stops(kind, t, b, chain, ApplyAll(kind, m, ops[..done]), ops[done])
    ensures old(Whole(tree.T())) && KeepsAll(kind, m, ops) ==> done == |ops| && Whole(t)
    ensures |trail| == done + 1 && trail[0].t == old(tree.T()) && trail[done] == Moment(t, b) &&
        TrailOk(kind, ops, trail)
    ensures (old(Low(tree.T())) ==> Low(t)) && Queued(old(tree.T()), tree.T(), tree.queue)
    ensures forall lean :: old(Weighed(tree.T(), lean)) && NeverUnweighs(kind, m, ops, done, lean) ==> Weighed(t, lean)
    ensures forall p :: old(OneLeaf(tree.T(), p)) ==>
              && InStep(kind, p, m, ops, done, t)
              && forall n :: 0 <= n < |ops| && StopsAt(kind, p, m, ops, n) ==> done == n
  {
    hide *;
    var cur := m;
    done := 0;
    t, b, chain := tree.T(), tree.bounds, tree.chain;
    trail := [Moment(t, b)];
    NoOps(kind, m, ops, t);
    ValidParts(tree);
    TrailStart(kind, ops, t, b);
    QueuedSame(t, tree.queue);
    while done < |ops|
      invariant done <= |ops| && tree.Valid() && tree.unique == (kind != NON_UNIQUE)
      invariant t == tree.T() && b == tree.bounds && chain == tree.chain
      invariant cur == ApplyAll(kind, m, ops[..done]) && Represents(kind, tree.Records(), cur)
      invariant Inv(t, b) && ChainOk(t, b, chain) && tree.Records() == Stored(t, chain)
      invariant old(Whole(tree.T())) && KeepsAll(kind, m, ops) ==> Whole(t)
      invariant |trail| == done + 1 && trail[0].t == old(tree.T()) && trail[done] == Moment(t, b)
      invariant TrailOk(kind, ops, trail) && (old(Low(tree.T())) ==> Low(t)) && Queued(old(tree.T()), t, tree.queue)
      invariant forall lean :: old(Weighed(tree.T(), lean)) && NeverUnweighs(kind, m, ops, done, lean) ==>
          Weighed(t, lean)
      invariant forall p :: old(OneLeaf(tree.T(), p)) ==> p.Leaf? && InStep(kind, p, m, ops, done, t)
    {
      OneOp(kind, m, ops, done);
      ghost var was := tree.queue;
      var ok := Step(kind, tree, cur, ops[done]);
      QueuedThen(old(tree.T()), t, tree.T(), was, tree.queue);
      if KeepsAll(kind, m, ops) { KeepsAt(kind, m, ops, done); }
      forall p | old(OneLeaf(tree.T(), p))
        ensures ok ==> InStep(kind, p, m, ops, done + 1, tree.T())
        ensures !ok ==> forall n :: 0 <= n < |ops| && StopsAt(kind, p, m, ops, n) ==> done == n
      {
        NextInStep(kind, p, m, ops, done, t, tree.T(), ok);
      }
      if !ok {
        return;
      }
      forall lean | NeverUnweighs(kind, m, ops, done + 1, lean)
        ensures NeverUnweighs(kind, m, ops, done, lean) && !Unweighs(kind, cur, ops[done], lean)
      {
        NeverBefore(kind, m, ops, done, lean);
      }
      cur := Apply(kind, cur, ops[done]);
      TrailOn(kind, ops, trail, tree.T(), tree.bounds);
      trail := trail + [Moment(tree.T(), tree.bounds)];
      done := done + 1;
      t, b, chain := tree.T(), tree.bounds, tree.chain;
      ValidParts(tree);
    }
    assert ops[..done] == ops;
    forall p | old(OneLeaf(tree.T(), p)) ensures forall n :: 0 <= n < |ops| ==> !StopsAt(kind, p, m, ops, n) {
      NoStop(kind, p, m, ops, t);
    }
  }

  lemma ValidParts(tree: IndexTree)
    requires tree.Valid()
    ensures Inv(tree.T(), tree.bounds) && ChainOk(tree.T(), tree.bounds, tree.chain)
    ensures Leaves(tree.T(), tree.chain) && tree.Records() == Stored(tree.T(), tree.chain)
  {
    TreeFacts(tree);
    SoundParts(tree.T(), tree.bounds, tree.chain, tree.queue, tree.splitLevel, tree.ranges);
  }

  lemma NoOps(kind: IndexKind, m: IndexMap, ops: seq<Op>, t: Tree)
    ensures ops[..0] == [] && ApplyAll(kind, m, []) == m
    ensures forall lean :: NeverUnweighs(kind, m, ops, 0, lean)
    ensures forall p :: OneLeaf(t, p) ==> p.Leaf? && InStep(kind, p, m, ops, 0, t)
  {
  }

  lemma KeepsAt(kind: IndexKind, m: IndexMap, ops: seq<Op>, i: nat)
    requires KeepsAll(kind, m, ops) && i < |ops|
    ensures Keeps(kind, ApplyAll(kind, m, ops[..i]), ops[i])
  {
  }

  lemma NeverBefore(kind: IndexKind, m: IndexMap, ops: seq<Op>, n: nat, lean: bool)
    requires n < |ops| && NeverUnweighs(kind, m, ops, n + 1, lean)
    ensures NeverUnweighs(kind, m, ops, n, lean) && !Unweighs(kind, ApplyAll(kind, m, ops[..n]), ops[n], lean)
  {
  }

  lemma NoStop(kind: IndexKind, p: Page, m: IndexMap, ops: seq<Op>, t: Tree)
    requires p.Leaf? && InStep(kind, p, m, ops, |ops|, t)
    ensures forall n :: 0 <= n < |ops| ==> !StopsAt(kind, p, m, ops, n)
  {
  }

  /** One more operation, or the stop. */
  lemma NextInStep(kind: IndexKind, p: Page, m: IndexMap, ops: seq<Op>, i: nat, t: Tree, t': Tree, ok: bool)
    requires p.Leaf? && i < |ops| && InStep(kind, p, m, ops, i, t)
    requires forall q :: OneLeaf(t, q) ==> Follows(LeafStep(kind, q, ApplyAll(kind, m, ops[..i]), ops[i]), t', ok)
    ensures ok ==> InStep(kind, p, m, ops, i + 1, t')
    ensures !ok ==> forall n :: 0 <= n < |ops| && StopsAt(kind, p, m, ops, n) ==> i == n
  {
    hide LeafStep, LeafAfter, ApplyAll;
    LeafOneMore(kind, p, m, ops, i);
    if !ok {
      forall n | i < n < |ops| ensures !StopsAt(kind, p, m, ops, n) { NoneLater(kind, p, m, ops, i + 1, n); }
    }
  }

  lemma {:induction false} NoneLater(kind: IndexKind, p: Page, m: IndexMap, ops: seq<Op>, i: nat, n: nat)
    requires p.Leaf? && i <= n <= |ops| && LeafAfter(kind, p, m, ops[..i]).None?
    ensures LeafAfter(kind, p, m, ops[..n]).None?
  {
    hide LeafStep, LeafAfter, ApplyAll;
    if i < n {
      NoneLater(kind, p, m, ops, i, n - 1);
      LeafOneMore(kind, p, m, ops, n - 1);
    }
  }

  /** What the i-th operation may rely on, and what it does to the map. */
  lemma {:induction false} OneOp(kind: IndexKind, m: IndexMap, ops: seq<Op>, i: nat)
    requires AllLegal(kind, m, ops) && i < |ops|
    ensures Legal(kind, ApplyAll(kind, m, ops[..i]), ops[i])
    ensures ApplyAll(kind, m, ops[..i + 1]) == Apply(kind, ApplyAll(kind, m, ops[..i]), ops[i])
    decreases |ops|
  {
    hide Apply, Legal;
    var n := |ops| - 1;
    assert ops[..i + 1][..i] == ops[..i];
    if i < n {
      OneOp(kind, m, ops[..n], i);
      assert ops[..n][..i] == ops[..i];
    }
  }
}
