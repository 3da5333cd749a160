/** Short runs of a new index that go wrong.  By `NewRun` a run of the tree stops where these say. */
module RunExamples {
  import opened KeyOrder
  import opened GreedySplit
  import opened PageIds
  import opened Pages
  import opened Search
  import opened SettleOrder
  import opened TreeUpdate
  import opened RecordUpdates
  import opened IndexTree
  import opened Tables
  import opened TreeInv
  import opened ForcedSplits
  import opened LeafRuns
  import opened TreeRuns
  import V = RecordVersions

  /** A run of a new index. */
  method NewRun(kind: IndexKind, ops: seq<Op>) returns (done: nat, ghost trail: seq<Moment>)
    requires AllLegal(kind, map[], ops)
    ensures done <= |ops| && |trail| == done + 1 && OneLeaf(trail[0].t, EMPTY_LEAF)
    ensures TrailOk(kind, ops, trail) && Low(trail[done].t)
    ensures KeepsAll(kind, map[], ops) ==> done == |ops|
    ensures forall n :: 0 <= n < |ops| && StopsAt(kind, EMPTY_LEAF, map[], ops, n) ==> done == n
  {
    hide *;
    var tree := new IndexTree(kind != NON_UNIQUE);
    ghost var t, b, chain;
    NewIsSound(kind, tree.T());
    done, t, b, chain, trail := TreeRuns.Run(kind, tree, map[], ops);
  }

  lemma NewIsSound(kind: IndexKind, t: Tree)
    ensures Represents(kind, [], map[])
    ensures OneLeaf(t, EMPTY_LEAF) ==> Low(t)
  {
  }

  /** One operation takes map and page to the next. */
  predicate Goes(kind: IndexKind, m: IndexMap, q: Page, op: Op, m': IndexMap, q': Page) {
    q.Leaf? && Legal(kind, m, op) && Apply(kind, m, op) == m' && LeafStep(kind, q, m, op) == Went(q')
  }

  /** Maps and pages of a run of a new index, operation by operation. */
  predicate Trace(kind: IndexKind, ops: seq<Op>, ms: seq<IndexMap>, qs: seq<Page>) {
    && |ms| == |qs| == |ops| + 1 && ms[0] == map[] && qs[0] == EMPTY_LEAF
    && forall i :: 0 <= i < |ops| ==> Goes(kind, ms[i], qs[i], ops[i], ms[i + 1], qs[i + 1])
  }

  lemma {:induction false} TraceRuns(kind: IndexKind, ops: seq<Op>, ms: seq<IndexMap>, qs: seq<Page>)
    requires Trace(kind, ops, ms, qs)
    ensures AllLegal(kind, map[], ops) && ApplyAll(kind, map[], ops) == ms[|ops|]
    ensures LeafAfter(kind, EMPTY_LEAF, map[], ops) == Some(qs[|ops|])
  {
    if ops != [] {
      var n := |ops| - 1;
      TraceRuns(kind, ops[..n], ms[..n + 1], qs[..n + 1]);
      assert Goes(kind, ms[n], qs[n], ops[n], ms[n + 1], qs[n + 1]);
    }
  }

  /** A trace, and an operation that stops after it. */
  lemma TraceStops(kind: IndexKind, ops: seq<Op>, ms: seq<IndexMap>, qs: seq<Page>, op: Op)
    requires Trace(kind, ops, ms, qs) && qs[|ops|].Leaf?
    requires Legal(kind, ms[|ops|], op) && LeafStep(kind, qs[|ops|], ms[|ops|], op) == Stopped
    ensures AllLegal(kind, map[], ops + [op]) && StopsAt(kind, EMPTY_LEAF, map[], ops + [op], |ops|)
    ensures ApplyAll(kind, map[], (ops + [op])[..|ops|]) == ms[|ops|]
  {
    TraceRuns(kind, ops, ms, qs);
    assert (ops + [op])[..|ops|] == ops;
  }

  // ---------- pages of one record ----------

  lemma OneRec(unique: bool, z: Rec, p: Probe)
    ensures HitsNull(unique, [z], p) <==> NoBytes(z)
    ensures !HitsNull(unique, [], p)
    ensures PlaceOf([z], ByRecord(z.key)) == 0 && Found([z], z.key) && PlaceOf([], p) == 0 && !Found([], z.key)
  {
    assert Visits(unique, [z], p, 0);
  }

  function OnePage(z: Rec, comm: int, temp: int): (p: Page)
    ensures p.Leaf?
  {
    EMPTY_LEAF.(recs := [z], comm := comm, temp := temp)
  }

  lemma PutFirst(x: Rec, z: Rec)
    ensures Put([], 0, false, x) == [x] && Put([z], 0, true, x) == [x]
  {
  }

  /** The insert into an empty leaf. */
  lemma InsertOne(kind: IndexKind, op: Op)
    requires op.Update? && op.act == INSERT && Legal(kind, map[], op)
    ensures var x := NewRec(kind, op);
      && x.key == op.key && !x.mark && !x.gone && !x.due
      && x.comm == x.clen == 0 && x.temp == x.tlen == |op.val| + 2
    ensures LeafStep(kind, EMPTY_LEAF, map[], op) == Went(OnePage(NewRec(kind, op), 0, |op.val| + 2))
    ensures Apply(kind, map[], op) == map[op.key := Item([NewVersion(op, false)], op.klen)]
    ensures ItemOk(kind, Item([NewVersion(op, false)], op.klen))
  {
    var x := NewRec(kind, op);
    NewChain(kind, op);
    OneRec(kind != NON_UNIQUE, x, ByRecord(op.key));
    PutFirst(x, x);
  }

  /** The end of a statement on the only record. */
  lemma EndOne(kind: IndexKind, m: IndexMap, z: Rec, comm: int, temp: int, op: Op)
    requires op.End? && op.key == z.key && op.key in m && CanEnd(m[op.key].vs, op.n)
    ensures LeafStep(kind, OnePage(z, comm, temp), m, op) ==
        Went(OnePage(EndedRec(z, AfterEnd(kind, m, op)), comm, temp))
  {
    hide AfterEnd;
    OneRec(true, z, ByRecord(z.key));
    PutFirst(EndedRec(z, AfterEnd(kind, m, op)), z);
  }

  /** A scan that comes to the only record. */
  lemma ScanOne(kind: IndexKind, m: IndexMap, z: Rec, comm: int, temp: int)
    requires z.due && z.key.val == 0.0 && kind != NON_UNIQUE
    ensures var op := Scan(z.key.key, z.key.key, true);
      && Legal(kind, m, op) && Apply(kind, m, op) == m
      && LeafStep(kind, OnePage(z, comm, temp), m, op)
         == Went(OnePage(AfterRelease(z), Wrapped(comm + z.clen - z.comm),
                         Wrapped(temp + AfterRelease(z).temp - z.temp)))
  {
    OneRec(true, z, ByKey(z.key.key));
    assert Key(z.key.key, 0.0) == z.key;
    PutFirst(AfterRelease(z), z);
  }

  // ---------- steps of the runs ----------

  /** What the first operations on one key leave of the map. */
  function New(op: Op): Item
    requires op.Update?
  {
    Item([NewVersion(op, false)], op.klen)
  }

  function OnceCommitted(op: Op): Item
    requires op.Update?
  {
    Item([V.Version(op.val, false, None)], op.klen)
  }

  function Changed(o0: Op, op: Op): Item
    requires o0.Update? && op.Update?
  {
    Item([NewVersion(op, true), V.Version(o0.val, false, None)], o0.klen)
  }

  /** An operation with a key of 50 bytes. */
  predicate Plain(kind: IndexKind, op: Op) {
    && op.Update? && op.klen == 50 && 100 <= |op.val| <= MAX_RECORD && (kind == PRIMARY || |op.val| <= 8000) &&
        op.tx != V.TXID_NULL
    && op.key.val == 0.0 && !op.conflict
  }

  lemma PlainLegal(kind: IndexKind, op: Op)
    requires Plain(kind, op)
    ensures Legal(kind, map[], op) && ValOk(kind, 50, op.val)
  {
  }

  lemma GoInsert(kind: IndexKind, op: Op) returns (x: Rec)
    requires Plain(kind, op) && op.act == INSERT
    ensures Goes(kind, map[], EMPTY_LEAF, op, map[op.key := New(op)], OnePage(x, 0, |op.val| + 2))
    ensures x == NewRec(kind, op) && x.key == op.key && !x.due && x.comm == 0 && x.temp == |op.val| + 2
  {
    x := NewRec(kind, op);
    PlainLegal(kind, op);
    InsertOne(kind, op);
  }

  lemma GoRollback(kind: IndexKind, op: Op, x: Rec, comm: int, temp: int) returns (z: Rec)
    requires Plain(kind, op) && op.act == INSERT && x.key == op.key
    ensures Goes(kind, map[op.key := New(op)], OnePage(x, comm, temp), End(op.key, 1, V.ROLLBACKED), map[],
                 OnePage(z, comm, temp))
    ensures z.key == op.key && z.due && z.gone && z.mark && z.lost && z.clen == 0 == z.tlen
    ensures z.comm == x.comm && z.temp == x.temp
  {
    PlainLegal(kind, op);
    RolledBackInsert(kind, op);
    var m, e := map[op.key := New(op)], End(op.key, 1, V.ROLLBACKED);
    z := EndedRec(x, AfterEnd(kind, m, e));
    EndOne(kind, m, x, comm, temp, e);
  }

  lemma GoCommit(kind: IndexKind, op: Op, x: Rec) returns (z: Rec)
    requires Plain(kind, op) && op.act == INSERT && x == NewRec(kind, op)
    ensures Goes(kind, map[op.key := New(op)], OnePage(x, 0, |op.val| + 2), End(op.key, 1, V.COMMITED),
                 map[op.key := OnceCommitted(op)], OnePage(z, 0, |op.val| + 2))
    ensures z.key == op.key && z.due && !z.mark && !z.gone && z.clen == z.tlen == z.temp == |op.val| + 2 && z.comm == 0
  {
    PlainLegal(kind, op);
    CommittedInsert(kind, op);
    InsertOne(kind, op);
    var m, e := map[op.key := New(op)], End(op.key, 1, V.COMMITED);
    z := EndedRec(x, AfterEnd(kind, m, e));
    EndOne(kind, m, x, 0, |op.val| + 2, e);
  }

  lemma GoScan(kind: IndexKind, m: IndexMap, z: Rec, comm: int, temp: int)
    requires z.due && z.key.val == 0.0 && kind != NON_UNIQUE
    ensures Goes(kind, m, OnePage(z, comm, temp), Scan(z.key.key, z.key.key, true), m,
                 OnePage(AfterRelease(z), Wrapped(comm + z.clen - z.comm),
                         Wrapped(temp + AfterRelease(z).temp - z.temp)))
  {
    ScanOne(kind, m, z, comm, temp);
  }

  /** A DELETE or an UPDATE of the committed record. */
  lemma GoChange(kind: IndexKind, o0: Op, op: Op, z: Rec) returns (x: Rec)
    requires Plain(kind, o0) && Plain(kind, op) && op.key == o0.key == z.key &&
        if kind == PRIMARY then op.act == UPDATE else op.act == DELETE
    requires z.due && !z.mark && !z.gone && z.clen == z.tlen == z.temp == |o0.val| + 2 && z.comm == 0
    ensures var n := |o0.val| + 2;
      Goes(kind, map[op.key := OnceCommitted(o0)], OnePage(z, 0, n), op, map[op.key := Changed(o0, op)],
           OnePage(x, n, if op.act == DELETE then 0 else n))
    ensures x.key == op.key && x.comm == |o0.val| + 2 && x.temp == if op.act == DELETE then 0 else |op.val| + 2
  {
    PlainLegal(kind, o0);
    PlainLegal(kind, op);
    RolledBackChange(kind, op.key, 50, o0.val, op);
    var m := map[op.key := OnceCommitted(o0)];
    if kind == PRIMARY {
      x := ReplaceOne(m, z, |o0.val| + 2, op);
    } else {
      x := DeleteOne(kind, m, z, |o0.val| + 2, op);
    }
  }

  lemma GoBack(kind: IndexKind, o0: Op, op: Op, x: Rec, comm: int, temp: int) returns (u: Rec)
    requires Plain(kind, o0) && Plain(kind, op) && op.key == o0.key == x.key && op.act != INSERT
    ensures var m := if op.act == DELETE then map[] else map[op.key := OnceCommitted(o0)];
      Goes(kind, map[op.key := Changed(o0, op)], OnePage(x, comm, temp), End(op.key, 1, V.ROLLBACKED), m,
           OnePage(u, comm, temp))
    ensures u.key == op.key && u.due && u.comm == x.comm && u.temp == x.temp && (u.mark <==> op.act == DELETE)
    ensures op.act == UPDATE ==> u.clen == u.tlen == |o0.val| + 2
  {
    PlainLegal(kind, o0);
    PlainLegal(kind, op);
    RolledBackChange(kind, op.key, 50, o0.val, op);
    var m, e := map[op.key := Changed(o0, op)], End(op.key, 1, V.ROLLBACKED);
    u := EndedRec(x, AfterEnd(kind, m, e));
    EndOne(kind, m, x, comm, temp, e);
  }

  // ---------- the runs ----------

  /** An INSERT is rolled back and a scan comes to the record: the next search for any key reads through a null
      pointer. */
  function NullOps(k: Key, k2: Key, val: V.Value, tx: V.TxId): seq<Op> {
    [Update(INSERT, k, 50, val, tx, 0, false), End(k, 1, V.ROLLBACKED), Scan(k.key, k.key, true),
     Update(INSERT, k2, 50, val, tx, 1, false)]
  }

  lemma NullRun(k: Key, k2: Key, val: V.Value, tx: V.TxId)
    requires |val| == 100 && tx != V.TXID_NULL && k.val == 0.0 == k2.val
    ensures var ops := NullOps(k, k2, val, tx);
      AllLegal(UNIQUE, map[], ops) && StopsAt(UNIQUE, EMPTY_LEAF, map[], ops, 3)
  {
    hide Goes, LeafStep, Legal, AllLegal, StopsAt, NewRec, New, AfterRelease;
    var o0, o1 := Update(INSERT, k, 50, val, tx, 0, false), End(k, 1, V.ROLLBACKED);
    var o2, o3 := Scan(k.key, k.key, true), Update(INSERT, k2, 50, val, tx, 1, false);
    var x := GoInsert(UNIQUE, o0);
    var z := GoRollback(UNIQUE, o0, x, 0, 102);
    GoScan(UNIQUE, map[], z, 0, 102);
    ScannedLost(z, k2, o3);
    PlainLegal(UNIQUE, o3);
    var qs := [EMPTY_LEAF, OnePage(x, 0, 102), OnePage(z, 0, 102), OnePage(AfterRelease(z), 0, 0)];
    TraceStops(UNIQUE, [o0, o1, o2], [map[], map[k := New(o0)], map[], map[]], qs, o3);
    assert [o0, o1, o2] + [o3] == [o0, o1, o2, o3];
  }

  lemma ScannedLost(z: Rec, k2: Key, op: Op)
    requires z.due && z.gone && z.mark && z.lost && z.clen == 0 == z.tlen && Plain(UNIQUE, op) && op.act == INSERT
    ensures Wrapped(0 + z.clen - 0) == 0 && Wrapped(102 + AfterRelease(z).temp - 102) == 0
    ensures LeafStep(UNIQUE, OnePage(AfterRelease(z), 0, 0), map[], op) == Stopped
  {
    OneRec(true, AfterRelease(z), ByRecord(op.key));
  }

  /** What the end of a rolled back INSERT leaves. */
  lemma RolledBackInsert(kind: IndexKind, op: Op)
    requires op.Update? && op.act == INSERT && Legal(kind, map[], op)
    ensures var m, e := map[op.key := Item([NewVersion(op, false)], op.klen)], End(op.key, 1, V.ROLLBACKED);
      && Legal(kind, m, e) && Apply(kind, m, e) == map[]
      && var x := AfterEnd(kind, m, e); x.key == op.key && x.gone && x.mark && x.lost && x.clen == 0 && x.tlen == 0
  {
    NewChain(kind, op);
    var vs := [NewVersion(op, false)];
    RollbackReleases(vs, 1);
  }

  /** What the commit of an INSERT leaves. */
  lemma CommittedInsert(kind: IndexKind, op: Op)
    requires op.Update? && op.act == INSERT && Legal(kind, map[], op)
    ensures var m, e := map[op.key := Item([NewVersion(op, false)], op.klen)], End(op.key, 1, V.COMMITED);
      var it := Item([V.Version(op.val, false, None)], op.klen);
      && Legal(kind, m, e) && Apply(kind, m, e) == map[op.key := it] && ItemOk(kind, it)
      && AfterEnd(kind, m, e) == View(kind, op.key, it)
      && var x := AfterEnd(kind, m, e); x.key == op.key && !x.mark && !x.gone && x.clen == x.tlen == |op.val| + 2
  {
    NewChain(kind, op);
    var vs := [NewVersion(op, false)];
    CommitReleases(vs, 1);
    assert V.VersionOk([V.Version(op.val, false, None)], 0);
  }

  /** The new version over the committed one, and what its rollback leaves. */
  lemma RolledBackChange(kind: IndexKind, k: Key, klen: nat, val: V.Value, op: Op)
    requires op.Update? && op.act != INSERT && op.key == k && op.klen == klen && !op.conflict && op.tx != V.TXID_NULL
    requires ValOk(kind, klen, val) && ValOk(kind, klen, op.val) && k.val == 0.0
    ensures var base := V.Version(val, false, None);
      var m, m' := map[k := Item([base], klen)], map[k := Item([NewVersion(op, true), base], klen)];
      Legal(kind, m, op) && Apply(kind, m, op) == m'
    ensures var base := V.Version(val, false, None);
      var m' := map[k := Item([NewVersion(op, true), base], klen)];
      Legal(kind, m', End(k, 1, V.ROLLBACKED))
    ensures var base := V.Version(val, false, None);
      var m, m' := map[k := Item([base], klen)], map[k := Item([NewVersion(op, true), base], klen)];
      Apply(kind, m', End(k, 1, V.ROLLBACKED)) == (if op.act == DELETE then map[] else m)
    ensures var base := V.Version(val, false, None);
      var m' := map[k := Item([NewVersion(op, true), base], klen)];
      var x := AfterEnd(kind, m', End(k, 1, V.ROLLBACKED));
      && x.key == k && !x.lost && (x.gone <==> op.act == DELETE) && (x.mark <==> op.act == DELETE)
      && (op.act == UPDATE ==> x.clen == x.tlen == |val| + 2)
  {
    var base := V.Version(val, false, None);
    var vs := [NewVersion(op, true), base];
    assert [NewVersion(op, true)] + [base] == vs;
    assert V.VersionOk(vs, 0) && V.VersionOk(vs, 1);
    RollbackReleases(vs, 1);
    assert vs[1..] == [base];
    assert V.Released(Ended(vs, 1, V.ROLLBACKED)) == [base.(del := op.act == DELETE)];
    var m' := map[k := Item(vs, klen)];
    assert m' - {k} == map[] && m'[k := Item([base], klen)] == map[k := Item([base], klen)];
  }

  /** The DELETE of the only record, which is due and will carry the delete flag. */
  lemma DeleteMarked(kind: IndexKind, m: IndexMap, z: Rec, comm: int, temp: int, op: Op)
    requires kind != PRIMARY && op.Update? && op.act == DELETE && op.key == z.key && z.due && z.mark
    ensures LeafStep(kind, OnePage(z, comm, temp), m, op) == Stopped
  {
    OneRec(kind != NON_UNIQUE, z, ByRecord(z.key));
  }

  /** A DELETE is rolled back, as when an UPDATE changes the key of another index (UpdateStatement.cpp:261-279), and the
      record leaves the index.  The next DELETE of the row fails the assertion at LeafPage.cpp:266. */
  function LostKeyOps(k: Key, val: V.Value, tx: V.TxId): seq<Op> {
    [Update(INSERT, k, 50, val, tx, 0, false), End(k, 1, V.COMMITED), Update(DELETE, k, 50, val, tx, 1, false),
     End(k, 1, V.ROLLBACKED), Update(DELETE, k, 50, val, tx, 2, false)]
  }

  lemma LostKeyRun(k: Key, val: V.Value, tx: V.TxId)
    requires |val| == 100 && tx != V.TXID_NULL && k.val == 0.0
    ensures var ops := LostKeyOps(k, val, tx);
      && AllLegal(UNIQUE, map[], ops) && StopsAt(UNIQUE, EMPTY_LEAF, map[], ops, 4)
      && Misses(UNIQUE, ApplyAll(UNIQUE, map[], ops[..4]), ops[4])
  {
    hide Goes, LeafStep, Legal, AllLegal, StopsAt, ApplyAll, OnePage, NewRec, New, OnceCommitted, Changed, NewVersion,
        Trace;
    var ops := LostKeyOps(k, val, tx);
    var ms, qs, u := LostKeyTrace(ops[0], ops[2]);
    DeleteMarked(UNIQUE, map[], u, 102, 0, ops[4]);
    PlainLegal(UNIQUE, ops[4]);
    assert ops[..4] == [ops[0], End(k, 1, V.COMMITED), ops[2], End(k, 1, V.ROLLBACKED)];
    TraceStops(UNIQUE, ops[..4], ms, qs, ops[4]);
    assert ops[..4] + [ops[4]] == ops;
  }

  lemma LostKeyTrace(o0: Op, o2: Op) returns (ms: seq<IndexMap>, qs: seq<Page>, u: Rec)
    requires Plain(UNIQUE, o0) && Plain(UNIQUE, o2) && |o0.val| == 100 && o0.key == o2.key && o0.act == INSERT &&
        o2.act == DELETE
    ensures Trace(UNIQUE, [o0, End(o0.key, 1, V.COMMITED), o2, End(o0.key, 1, V.ROLLBACKED)], ms, qs)
    ensures |ms| == |qs| == 5 && ms[4] == map[] && qs[4] == OnePage(u, 102, 0)
    ensures u.key == o0.key && u.due && u.mark
  {
    hide Goes, OnePage, NewRec, New, OnceCommitted, Changed;
    var k := o0.key;
    var x := GoInsert(UNIQUE, o0);
    var z := GoCommit(UNIQUE, o0, x);
    var y := GoChange(UNIQUE, o0, o2, z);
    u := GoBack(UNIQUE, o0, o2, y, 102, 0);
    ms := [map[], map[k := New(o0)], map[k := OnceCommitted(o0)], map[k := Changed(o0, o2)], map[]];
    qs := [EMPTY_LEAF, OnePage(x, 0, 102), OnePage(z, 0, 102), OnePage(y, 102, 0), OnePage(u, 102, 0)];
  }

  /** The DELETE of the only record. */
  lemma DeleteOne(kind: IndexKind, m: IndexMap, z: Rec, n: nat, op: Op) returns (x: Rec)
    requires kind != PRIMARY && op.Update? && op.act == DELETE && op.key == z.key && !op.conflict && n < MAX_LEAF
    requires z.due && !z.mark && !z.gone && z.comm == 0 && z.clen == z.tlen == z.temp == n
    ensures x == NewRec(kind, op).(clen := n, comm := n) && x.key == op.key && x.mark && x.temp == 0
    ensures LeafStep(kind, OnePage(z, 0, n), m, op) == Went(OnePage(x, n, 0))
  {
    x := NewRec(kind, op).(clen := n, comm := n);
    OneRec(kind != NON_UNIQUE, z, ByRecord(z.key));
    PutFirst(AfterRelease(z), z);
    PutFirst(x, AfterRelease(z));
  }

  /** An UPDATE in place by a longer value is rolled back: the release takes off a length that was never added.  The
      temporary length of the page wraps around, and the next update forces a split. */
  function WrapOps(k: Key, val: V.Value, long: V.Value, tx: V.TxId): seq<Op> {
    [Update(INSERT, k, 50, val, tx, 0, false), End(k, 1, V.COMMITED), Update(UPDATE, k, 50, long, tx, 1, false),
     End(k, 1, V.ROLLBACKED), Scan(k.key, k.key, true)]
  }

  lemma WrapRun(k: Key, val: V.Value, long: V.Value, tx: V.TxId)
    requires |val| == 100 && |long| == 8000 && tx != V.TXID_NULL && k.val == 0.0
    ensures var ops := WrapOps(k, val, long, tx);
      && AllLegal(PRIMARY, map[], ops)
      && var q := LeafAfter(PRIMARY, EMPTY_LEAF, map[], ops);
        && q.Some? && NeedForceSplit(q.value) && q.value.temp == 0x1_0000_0000 - 7798
        && Sum(Temps(q.value.recs)) == 102
  {
    hide Goes, LeafStep, Legal, AllLegal, ApplyAll, LeafAfter, NewRec, Trace, Part, Temps;
    var ops := WrapOps(k, val, long, tx);
    var ms, qs, u := WrapTrace(ops[0], ops[2]);
    TraceRuns(PRIMARY, ops, ms, qs);
    OneLen(u);
  }

  lemma WrapTrace(o0: Op, o2: Op) returns (ms: seq<IndexMap>, qs: seq<Page>, u: Rec)
    requires Plain(PRIMARY, o0) && Plain(PRIMARY, o2) && |o0.val| == 100 && |o2.val| == 8000 && o0.key == o2.key
    requires o0.act == INSERT && o2.act == UPDATE
    ensures var k := o0.key;
      Trace(PRIMARY, [o0, End(k, 1, V.COMMITED), o2, End(k, 1, V.ROLLBACKED), Scan(k.key, k.key, true)], ms, qs)
    ensures |ms| == |qs| == 6 && qs[5] == OnePage(u, 102, 0x1_0000_0000 - 7798) && u.temp == 102
  {
    hide Goes, NewRec, New, OnceCommitted, Changed, AfterRelease;
    var k := o0.key;
    var x := GoInsert(PRIMARY, o0);
    var z := GoCommit(PRIMARY, o0, x);
    var y := GoChange(PRIMARY, o0, o2, z);
    var v := GoBack(PRIMARY, o0, o2, y, 102, 102);
    var c := map[k := OnceCommitted(o0)];
    GoScan(PRIMARY, c, v, 102, 102);
    WrappedBelow(v);
    u := AfterRelease(v);
    ms := [map[], map[k := New(o0)], c, map[k := Changed(o0, o2)], c, c];
    qs := [EMPTY_LEAF, OnePage(x, 0, 102), OnePage(z, 0, 102), OnePage(y, 102, 102), OnePage(v, 102, 102),
           OnePage(u, 102, 0x1_0000_0000 - 7798)];
  }

  lemma WrappedBelow(u: Rec)
    requires !u.mark && u.clen == u.tlen == u.comm == 102 && u.temp == 8002
    ensures Wrapped(102 + u.clen - u.comm) == 102
    ensures Wrapped(102 + AfterRelease(u).temp - u.temp) == 0x1_0000_0000 - 7798 && AfterRelease(u).temp == 102
  {
  }

  /** The UPDATE in place of the only record. */
  lemma ReplaceOne(m: IndexMap, z: Rec, n: nat, op: Op) returns (x: Rec)
    requires op.Update? && op.act == UPDATE && op.key == z.key && z.key.val == 0.0 && !op.conflict
    requires z.due && !z.mark && !z.gone && z.comm == 0 && z.clen == z.tlen == z.temp == n
    ensures x == NewRec(PRIMARY, op).(clen := n, comm := n) && x.key == op.key && !x.mark && x.temp == |op.val| + 2
    ensures LeafStep(PRIMARY, OnePage(z, 0, n), m, op) == Went(OnePage(x, n, n))
  {
    x := NewRec(PRIMARY, op).(clen := n, comm := n);
    OneRec(true, z, ByRecord(z.key));
    OneRec(true, z, ByKey(z.key.key));
    PutFirst(AfterRelease(z), z);
    PutFirst(x, AfterRelease(z));
  }

  /** Two INSERTs of the largest size are rolled back before their leaf is settled: it is overlong and nothing in it
      stays. */
  function StaleOps(k: Key, k2: Key, val: V.Value, tx: V.TxId): seq<Op> {
    [Update(INSERT, k, 50, val, tx, 0, false), Update(INSERT, k2, 50, val, tx, 0, false), End(k, 1, V.ROLLBACKED),
     End(k2, 1, V.ROLLBACKED), Settle]
  }

  lemma StaleRun(k: Key, k2: Key, val: V.Value, tx: V.TxId)
    requires |val| == 8180 && tx != V.TXID_NULL && k.val == 0.0 == k2.val && Lt(k, k2)
    ensures var ops := StaleOps(k, k2, val, tx);
      AllLegal(PRIMARY, map[], ops) && StopsAt(PRIMARY, EMPTY_LEAF, map[], ops, 4)
  {
    hide Goes, LeafStep, Legal, AllLegal, StopsAt, ApplyAll, OnePage, TwoPage, NewRec, New, NewVersion, Stuck,
        IsOverlength;
    var ops := StaleOps(k, k2, val, tx);
    var o0, o1 := ops[0], ops[1];
    var x, y, z, u := TwoSteps(o0, o1);
    SettleStuck(z, u);
    var ms := [map[], map[k := New(o0)], map[k := New(o0), k2 := New(o1)], map[k2 := New(o1)], map[]];
    var qs := [EMPTY_LEAF, OnePage(x, 0, 8182), TwoPage(x, y), TwoPage(z, y), TwoPage(z, u)];
    TraceStops(PRIMARY, ops[..4], ms, qs, Settle);
    assert ops[..4] + [Settle] == ops;
  }

  lemma SettleStuck(z: Rec, u: Rec)
    requires z.gone && u.gone
    ensures LeafStep(PRIMARY, TwoPage(z, u), map[], Settle) == Stopped && Legal(PRIMARY, map[], Settle)
  {
    TwoGone(z, u);
  }

  lemma TwoSteps(o0: Op, o1: Op) returns (x: Rec, y: Rec, z: Rec, u: Rec)
    requires Plain(PRIMARY, o0) && Plain(PRIMARY, o1) && o0.act == INSERT == o1.act && |o0.val| == |o1.val| == 8180 &&
        Lt(o0.key, o1.key)
    ensures var k, k2 := o0.key, o1.key;
      var m1, m2, m3 := map[k := New(o0)], map[k := New(o0), k2 := New(o1)], map[k2 := New(o1)];
      && Goes(PRIMARY, map[], EMPTY_LEAF, o0, m1, OnePage(x, 0, 8182))
      && Goes(PRIMARY, m1, OnePage(x, 0, 8182), o1, m2, TwoPage(x, y))
      && Goes(PRIMARY, m2, TwoPage(x, y), End(k, 1, V.ROLLBACKED), m3, TwoPage(z, y))
      && Goes(PRIMARY, m3, TwoPage(z, y), End(k2, 1, V.ROLLBACKED), map[], TwoPage(z, u))
    ensures z.gone && u.gone
  {
    hide LeafStep, AfterEnd, NewVersion;
    var k, k2 := o0.key, o1.key;
    var m1, m2, m3 := map[k := New(o0)], map[k := New(o0), k2 := New(o1)], map[k2 := New(o1)];
    PlainLegal(PRIMARY, o0);
    PlainLegal(PRIMARY, o1);
    x := GoInsert(PRIMARY, o0);
    y := NewRec(PRIMARY, o1);
    SecondLegal(m1, o1);
    InsertOne(PRIMARY, o1);
    InsertSecond(m1, x, o1);
    RolledBackInsert(PRIMARY, o0);
    RolledBackInsert(PRIMARY, o1);
    EndsSame(m1, m2, k);
    z := EndedRec(x, AfterEnd(PRIMARY, m2, End(k, 1, V.ROLLBACKED)));
    EndTwo(m2, x, y, End(k, 1, V.ROLLBACKED));
    u := EndedRec(y, AfterEnd(PRIMARY, m3, End(k2, 1, V.ROLLBACKED)));
    EndTwo(m3, z, y, End(k2, 1, V.ROLLBACKED));
    assert m2 - {k} == m3;
  }

  lemma SecondLegal(m: IndexMap, op: Op)
    requires op.Update? && op.key !in m && Legal(PRIMARY, map[], op)
    ensures Legal(PRIMARY, m, op)
    ensures op.act == INSERT ==> Apply(PRIMARY, m, op) == m[op.key := Item([NewVersion(op, false)], op.klen)]
  {
  }

  function TwoPage(x: Rec, y: Rec): (p: Page)
    ensures p.Leaf?
  {
    EMPTY_LEAF.(recs := [x, y], temp := 16364)
  }

  lemma TwoGone(x: Rec, y: Rec)
    requires x.gone && y.gone
    ensures Stuck(TwoPage(x, y)) && IsOverlength(TwoPage(x, y))
  {
    assert [x, y][..1] == [x] && [x][..0] == [];
  }

  lemma TwoPlaces(x: Rec, y: Rec)
    requires Lt(x.key, y.key)
    ensures PlaceOf([x, y], ByRecord(x.key)) == 0 && Found([x, y], x.key)
    ensures PlaceOf([x, y], ByRecord(y.key)) == 1 && Found([x, y], y.key)
    ensures PlaceOf([x], ByRecord(y.key)) == 1 && !Found([x], y.key)
  {
    assert [x, y][1..] == [y] && [x][1..] == [];
  }

  lemma InsertSecond(m: IndexMap, x: Rec, op: Op)
    requires op.Update? && op.act == INSERT && Legal(PRIMARY, m, op) && |op.val| == 8180
    requires Lt(x.key, op.key) && !NoBytes(x)
    ensures LeafStep(PRIMARY, OnePage(x, 0, 8182), m, op) == Went(TwoPage(x, NewRec(PRIMARY, op)))
  {
    var y := NewRec(PRIMARY, op);
    TwoPlaces(x, y);
    OneRec(true, x, ByRecord(op.key));
    assert Put([x], 1, false, y) == [x, y];
  }

  lemma EndTwo(m: IndexMap, x: Rec, y: Rec, op: Op)
    requires op.End? && op.key in m && CanEnd(m[op.key].vs, op.n) && Lt(x.key, y.key)
    requires op.key == x.key || op.key == y.key
    ensures var e := AfterEnd(PRIMARY, m, op);
      LeafStep(PRIMARY, TwoPage(x, y), m, op)
      == Went(if op.key == x.key then TwoPage(EndedRec(x, e), y) else TwoPage(x, EndedRec(y, e)))
  {
    hide AfterEnd;
    TwoPlaces(x, y);
    var e := AfterEnd(PRIMARY, m, op);
    assert Put([x, y], 0, true, EndedRec(x, e)) == [EndedRec(x, e), y];
    assert Put([x, y], 1, true, EndedRec(y, e)) == [x, EndedRec(y, e)];
  }

  /** The end of a statement depends on its own record only. */
  lemma EndsSame(m: IndexMap, m': IndexMap, k: Key)
    requires k in m && k in m' && m[k] == m'[k]
    ensures var e := End(k, 1, V.ROLLBACKED);
      && (Legal(PRIMARY, m, e) <==> Legal(PRIMARY, m', e))
      && (Legal(PRIMARY, m, e) ==> AfterEnd(PRIMARY, m, e) == AfterEnd(PRIMARY, m', e))
      && (Legal(PRIMARY, m, e) && k !in Apply(PRIMARY, m, e) ==> Apply(PRIMARY, m', e) == m' - {k})
  {
  }
}
