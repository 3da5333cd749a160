/** Runs of an index that is still one leaf, as a function of the page: a reference for what a run does to the bytes a
    page counts and to the places where it stops. */
module LeafRuns {
  import opened KeyOrder
  import opened PageIds
  import opened Pages
  import opened Search
  import opened TreeInv
  import opened SettleOrder
  import opened TreeUpdate
  import opened RecordUpdates
  import opened Tables
  import V = RecordVersions

  /** What an operation does to the leaf: it goes on with a page, or with that page or what a save makes of it; it
      stops; or the reference does not say. */
  datatype LeafOutcome = Went(page: Page) | Rests(page: Page) | Stopped | Unsaid

  predicate Found(s: seq<Rec>, k: Key) {
    var pos := PlaceOf(s, ByRecord(k));
    pos < |s| && s[pos].key == k
  }

  function LeafStep(kind: IndexKind, p: Page, m: IndexMap, op: Op): (o: LeafOutcome)
    requires p.Leaf?
    ensures o.Went? || o.Rests? ==> o.page.Leaf?
  {
    match op
    case Update(act, k, _, _, _, _, conflict) =>
      if InPlace(kind, op) then HandleStep(kind, p, op) else UpdateStep(kind, p, op)
    case End(k, n, sts) =>
      if k in m && CanEnd(m[k].vs, n) && Found(p.recs, k) then
        Went(EndedPage(p, PlaceOf(p.recs, ByRecord(k)), AfterEnd(kind, m, op)))
      else Unsaid
    case Scan(first, _, point) =>
      if HitsNull(kind != NON_UNIQUE, p.recs, ByKey(first)) then Stopped
      else if !point then Unsaid
      else if Found(p.recs, Key(first, 0.0)) then Went(ReleasedPage(p, PlaceOf(p.recs, ByRecord(Key(first, 0.0)))))
      else Went(p)
    case Settle =>
      if !IsOverlength(p) then Rests(p) else if Stuck(p) then Stopped else Unsaid
    case Allot(_) =>
      Went(p)
  }

  function UpdateStep(kind: IndexKind, p: Page, op: Op): (o: LeafOutcome)
    requires p.Leaf? && op.Update?
    ensures o.Went? ==> o.page.Leaf?
  {
    var s, k := p.recs, op.key;
    var pos, bFind := PlaceOf(s, ByRecord(k)), Found(s, k);
    var has := bFind && !s[pos].mark;
    var y := UpdatedPage(p, pos, bFind, op.act, NewRec(kind, op), op.conflict);
    if HitsNull(kind != NON_UNIQUE, s, ByRecord(k)) then Stopped
    else if op.act == DELETE && !has then Stopped
    else if has && (op.act == INSERT || (op.act == DELETE && op.conflict)) then Went(y)
    else if !NeedForceSplit(y) then Went(y)
    else if Stuck(y) then Stopped
    else Unsaid
  }

  function HandleStep(kind: IndexKind, p: Page, op: Op): (o: LeafOutcome)
    requires p.Leaf? && op.Update?
    ensures o.Went? ==> o.page.Leaf?
  {
    var s, k := p.recs, op.key;
    var pos, bFind := PlaceOf(s, ByRecord(k)), Found(s, k);
    if HitsNull(true, s, ByKey(k.key)) then Stopped
    else if !bFind then Went(p)
    else if s[pos].mark || op.conflict then Went(ReleasedPage(p, pos))
    else Went(HandledPage(p, pos, op.act, NewRec(kind, op)))
  }

  /** The page after a run that goes on throughout. */
  function LeafAfter(kind: IndexKind, p: Page, m: IndexMap, ops: seq<Op>): (r: Option<Page>)
    requires p.Leaf?
    ensures r.Some? ==> r.value.Leaf?
  {
    var n := |ops| - 1;
    if ops == [] then Some(p)
    else
      var q := LeafAfter(kind, p, m, ops[..n]);
      if q.None? then None
      else
        var o := LeafStep(kind, q.value, ApplyAll(kind, m, ops[..n]), ops[n]);
        if o.Went? then Some(o.page) else None
  }

  /** The run goes on through its first n operations and stops at the next one. */
  predicate StopsAt(kind: IndexKind, p: Page, m: IndexMap, ops: seq<Op>, n: nat)
    requires p.Leaf? && n < |ops|
  {
    var q := LeafAfter(kind, p, m, ops[..n]);
    q.Some? && LeafStep(kind, q.value, ApplyAll(kind, m, ops[..n]), ops[n]) == Stopped
  }

  /** The place found by a search, as the reference computes it. */
  lemma PlaceIsSpot(s: seq<Rec>, k: Key, pos: nat, bFind: bool)
    requires SortedRecs(s) && AtPlace(s, k, pos, bFind)
    ensures pos == PlaceOf(s, ByRecord(k)) && (bFind <==> Found(s, k))
  {
    PlaceIs(s, ByRecord(k));
    var n := PlaceOf(s, ByRecord(k));
    assert n < |s| ==> (Before(s[n].key, ByRecord(k)) <==> n < pos);
    assert pos < |s| ==> (Before(s[pos].key, ByRecord(k)) <==> pos < n);
  }

  /** One more operation. */
  lemma LeafOneMore(kind: IndexKind, p: Page, m: IndexMap, ops: seq<Op>, i: nat)
    requires p.Leaf? && i < |ops|
    ensures ops[..i + 1][..i] == ops[..i]
    ensures var q := LeafAfter(kind, p, m, ops[..i]);
      LeafAfter(kind, p, m, ops[..i + 1])
      == if q.None? then None
         else
           var o := LeafStep(kind, q.value, ApplyAll(kind, m, ops[..i]), ops[i]);
           if o.Went? then Some(o.page) else None
  {
    assert ops[..i + 1][..i] == ops[..i] && ops[..i + 1][i] == ops[i];
  }
}
