/** An index as a plain map from keys to version chains, and what updates and the ends of statements do to it.

    Updates come in by LeafPage::UpdateAction (src/core/LeafPage.cpp:224-302), but for DELETE and UPDATE on the primary
    index, which replace the record in its page (src/statement/DeleteStatement.cpp:180-280,
    src/statement/UpdateStatement.cpp:178-330). */
module Tables {
  import opened KeyOrder
  import opened Pages
  import opened TreeUpdate
  import opened RecordUpdates
  import V = RecordVersions

  datatype IndexKind = PRIMARY | UNIQUE | NON_UNIQUE

  /** The versions of a record, newest first, and the length of a branch record with its key alone. */
  datatype Item = Item(vs: seq<V.Version>, klen: nat)

  type IndexMap = map<Key, Item>

  datatype Op =
    | Update(act: Action, key: Key, klen: nat, val: V.Value, tx: V.TxId, stmt: V.StmtId, conflict: bool)
    | End(key: Key, n: nat, sts: V.RecordStatus)
    | Scan(first: real, last: real, point: bool)
    | Settle
    | Allot(exptTaskNum: nat)

  // ---------- a record and its versions ----------

  /** The length of a branch record made from a leaf record of n bytes, with its slot. */
  function EntryLen(kind: IndexKind, n: nat): int {
    if kind == PRIMARY then n - 7 else n - 2
  }

  predicate ValOk(kind: IndexKind, klen: nat, val: V.Value) {
    0 < klen <= EntryLen(kind, |val|) <= MAX_ENTRY && |val| <= MAX_RECORD
  }

  /** Nothing locks the record and it carries the delete flag: it only waits to be dropped. */
  predicate Gone(vs: seq<V.Version>)
    requires |vs| > 0
  {
    vs[0].lock.None? && vs[0].del
  }

  /** What the tree sees of a record (LeafRecord::GetLength, and the slot a split counts for a marked one). */
  function View(kind: IndexKind, k: Key, it: Item): Rec
    requires |it.vs| > 0
  {
    var v, base := it.vs[0], it.vs[|it.vs| - 1];
    AfterRelease(
      Rec(k, if Gone(it.vs) || base.del || V.Updated(base) then 0 else |base.val| + 2,
          if Gone(it.vs) then 0 else if v.del then 2 else |v.val| + 2,
          if ValOk(kind, it.klen, v.val) then EntryLen(kind, |v.val|) else it.klen, it.klen, v.del, Gone(it.vs),
          0, 0, false, false))
  }

  /** A chain between two operations, as a release would leave it: every lock belongs to a statement that has not
      ended, and a DELETE marks the record. */
  ghost predicate ItemOk(kind: IndexKind, it: Item) {
    && V.VersionsOk(it.vs) && !Gone(it.vs)
    && (V.Updated(it.vs[0]) && it.vs[0].lock.value.actType == V.DELETE ==> it.vs[0].del)
    && forall i :: 0 <= i < |it.vs| ==> Open(it.vs[i]) && ValOk(kind, it.klen, it.vs[i].val)
  }

  predicate Open(v: V.Version) {
    v.lock.Some? ==> V.Updateable(v.lock.value.actType) && v.lock.value.recStatus == V.INIT
  }

  // ---------- the plain map ----------

  predicate Held(m: IndexMap, k: Key) {
    k in m && |m[k].vs| > 0 && !m[k].vs[0].del
  }

  /** The version an update brings.  An UPDATE that finds no record inserts one. */
  function NewVersion(op: Op, held: bool): V.Version
    requires op.Update?
  {
    var a := if op.act == DELETE then V.DELETE else if op.act == UPDATE && held then V.UPDATE else V.INSERT;
    V.Version(op.val, op.act == DELETE, Some(V.RecordLock(a, V.INIT, [op.tx], Some(op.stmt))))
  }

  /** The newest n versions after their statements have ended. */
  function Ended(vs: seq<V.Version>, n: nat, sts: V.RecordStatus): (r: seq<V.Version>)
    requires n <= |vs| && forall i :: 0 <= i < n ==> vs[i].lock.Some?
    ensures |r| == |vs|
  {
    seq(|vs|, i requires 0 <= i < |vs| =>
          if i < n then vs[i].(lock := Some(vs[i].lock.value.(recStatus := sts, stmt := None))) else vs[i])
  }

  predicate CanEnd(vs: seq<V.Version>, n: nat) {
    0 < n <= |vs| && forall i :: 0 <= i < n ==> V.Updated(vs[i])
  }

  /** A statement that replaces the record in its page. */
  predicate InPlace(kind: IndexKind, op: Op) {
    op.Update? && kind == PRIMARY && op.act != INSERT
  }

  /** A DELETE comes for a record that the index does not hold. */
  predicate Misses(kind: IndexKind, m: IndexMap, op: Op) {
    op.Update? && op.act == DELETE && !InPlace(kind, op) && !Held(m, op.key)
  }

  /** The effect of an operation on the plain map.  A DELETE that misses ends the run. */
  function Apply(kind: IndexKind, m: IndexMap, op: Op): IndexMap {
    match op
    case Update(act, k, klen, _, _, _, conflict) =>
      if !Held(m, k) then
        if InPlace(kind, op) || act == DELETE then m else m[k := Item([NewVersion(op, false)], klen)]
      else if act == INSERT || conflict then m
      else m[k := Item([NewVersion(op, true)] + m[k].vs, klen)]
    case End(k, n, sts) =>
      if k in m && CanEnd(m[k].vs, n) then
        var w := V.Released(Ended(m[k].vs, n, sts));
        if Gone(w) then m - {k} else m[k := m[k].(vs := w)]
      else m
    case Scan(_, _, _) => m
    case Settle => m
    case Allot(_) => m
  }

  function ApplyAll(kind: IndexKind, m: IndexMap, ops: seq<Op>): IndexMap {
    if ops == [] then m else Apply(kind, ApplyAll(kind, m, ops[..|ops| - 1]), ops[|ops| - 1])
  }

  /** What the callers keep to.  A lock of another transaction is a conflict (so may be others' read locks, which the
      chains leave out).  A transaction commits all its versions of a record at once, and rolls back the newest
      ones.  Only a unique index is searched for a single key. */
  predicate Legal(kind: IndexKind, m: IndexMap, op: Op) {
    match op
    case Update(act, k, klen, val, tx, _, conflict) =>
      && ValOk(kind, klen, val) && tx != V.TXID_NULL
      && (kind != NON_UNIQUE ==> k.val == 0.0)
      && (k in m ==> klen == m[k].klen)
      && (Held(m, k) && V.IsConflict(m[k].vs[0], tx, if act == DELETE then V.DELETE else V.UPDATE) ==> conflict)
    case End(k, n, sts) =>
      && k in m && CanEnd(m[k].vs, n)
      && (sts == V.ROLLBACKED || (sts == V.COMMITED && forall i :: n <= i < |m[k].vs| ==> !V.Updated(m[k].vs[i])))
    case Scan(first, last, point) => point ==> kind != NON_UNIQUE && first == last
    case Settle => true
    case Allot(n) => n > 0
  }

  predicate AllLegal(kind: IndexKind, m: IndexMap, ops: seq<Op>) {
    ops == [] ||
        (AllLegal(kind, m, ops[..|ops| - 1]) && Legal(kind, ApplyAll(kind, m, ops[..|ops| - 1]), ops[|ops| - 1]))
  }

  /** The update erases a record whose DELETE has not ended. */
  predicate Erases(kind: IndexKind, m: IndexMap, op: Op) {
    op.Update? && op.act != DELETE && !InPlace(kind, op) && op.key in m && !Held(m, op.key)
  }

  /** The end of statements after which the record only waits to be dropped. */
  predicate Drops(m: IndexMap, op: Op) {
    op.End? && op.key in m && CanEnd(m[op.key].vs, op.n) && Gone(V.Released(Ended(m[op.key].vs, op.n, op.sts)))
  }

  /** An UPDATE in place by a value of another length. */
  predicate Resizes(kind: IndexKind, m: IndexMap, op: Op) {
    InPlace(kind, op) && op.act == UPDATE && Held(m, op.key) && !op.conflict && |op.val| != |m[op.key].vs[0].val|
  }

  /** The tree stores exactly the records of the map. */
  ghost predicate Represents(kind: IndexKind, s: seq<Rec>, m: IndexMap) {
    && (forall k :: k in m ==> ItemOk(kind, m[k]) && (kind != NON_UNIQUE ==> k.val == 0.0))
    && (forall y :: y in s <==> y.key in m && |m[y.key].vs| > 0 && y == View(kind, y.key, m[y.key]))
  }

  // ---------- one operation ----------

  lemma ViewFits(kind: IndexKind, k: Key, it: Item)
    requires |it.vs| > 0 && (Gone(it.vs) || ValOk(kind, it.klen, it.vs[0].val)) && 0 < it.klen <= MAX_ENTRY
    requires it.vs[|it.vs| - 1].del || ValOk(kind, it.klen, it.vs[|it.vs| - 1].val)
    ensures RecFit(View(kind, k, it), MAX_LEAF)
  {
  }

  lemma HeldByMap(kind: IndexKind, s: seq<Rec>, m: IndexMap, k: Key)
    requires Represents(kind, s, m)
    ensures Holds(s, k) <==> Held(m, k)
    ensures Marked(s, k) <==> k in m && !Held(m, k)
    ensures (exists y :: y in s && y.key == k) <==> k in m
    ensures k in m ==> forall y :: y in s && y.key == k ==> y == View(kind, k, m[k])
  {
    if k in m {
      assert ItemOk(kind, m[k]);
      assert View(kind, k, m[k]) in s;
    }
  }

  /** The new version on top of the chain it covers. */
  lemma CoveredChain(kind: IndexKind, m: IndexMap, op: Op)
    requires op.Update? && Held(m, op.key) && ItemOk(kind, m[op.key]) && Legal(kind, m, op) && op.act != INSERT &&
        !op.conflict
    ensures ItemOk(kind, Item([NewVersion(op, true)] + m[op.key].vs, op.klen))
  {
    var vs := m[op.key].vs;
    var w := [NewVersion(op, true)] + vs;
    assert V.VersionOk(vs, 0);
    forall i | 0 <= i < |w| ensures V.VersionOk(w, i) {
      if i > 0 { assert V.VersionOk(vs, i - 1); }
    }
    forall i | 0 <= i < |w| ensures Open(w[i]) && ValOk(kind, op.klen, w[i].val) {
      if i > 0 { assert w[i] == vs[i - 1]; }
    }
  }

  lemma NewChain(kind: IndexKind, op: Op)
    requires op.Update? && ValOk(kind, op.klen, op.val) && op.tx != V.TXID_NULL && op.act != DELETE
    ensures ItemOk(kind, Item([NewVersion(op, false)], op.klen))
  {
    assert V.VersionOk([NewVersion(op, false)], 0);
  }

  /** The record of an update, before it covers another one. */
  function NewRec(kind: IndexKind, op: Op): Rec
    requires op.Update?
  {
    View(kind, op.key, Item([NewVersion(op, false)], op.klen))
  }

  lemma NewRecOk(kind: IndexKind, m: IndexMap, op: Op)
    requires op.Update? && Legal(kind, m, op)
    ensures RecOk(NewRec(kind, op), kind != NON_UNIQUE)
    ensures var x := NewRec(kind, op);
      && x.key == op.key && !x.gone && !x.due && x.clen == 0 && x.mark == (op.act == DELETE)
      && x.temp == if op.act == DELETE then 0 else |op.val| + 2
  {
  }

  /** What the tree sees of the chain the update leaves. */
  lemma UpdateView(kind: IndexKind, s: seq<Rec>, m: IndexMap, op: Op, x: Rec)
    requires op.Update? && Represents(kind, s, m) && Legal(kind, m, op)
    requires if Held(m, op.key) then op.act != INSERT && !op.conflict else op.act != DELETE && !InPlace(kind, op)
    requires x == NewRec(kind, op).(clen := x.clen, comm := x.clen) && CoversLength(s, op.key, x.clen)
    ensures var m' := Apply(kind, m, op);
      && op.key in m' && m' == m[op.key := m'[op.key]] && ItemOk(kind, m'[op.key])
      && x == View(kind, op.key, m'[op.key])
  {
    var k, m' := op.key, Apply(kind, m, op);
    HeldByMap(kind, s, m, k);
    if Held(m, k) {
      CoveredChain(kind, m, op);
      assert View(kind, k, m[k]) in s;
    } else {
      NewChain(kind, op);
    }
    hide ItemOk, ValOk, V.Updateable;
    assert m'[k].vs[0].val == op.val;
  }

  /** What the tree stores after an update. */
  lemma UpdateStored(kind: IndexKind, s: seq<Rec>, s': seq<Rec>, m: IndexMap, op: Op, x: Rec)
    requires op.Update? && Represents(kind, s, m) && Legal(kind, m, op)
    requires if Held(m, op.key) then op.act != INSERT && !op.conflict else op.act != DELETE && !InPlace(kind, op)
    requires x == NewRec(kind, op).(clen := x.clen, comm := x.clen) && CoversLength(s, op.key, x.clen)
    requires forall y :: y in s' <==> (y in s && y.key != op.key) || y == x
    ensures Represents(kind, s', Apply(kind, m, op))
  {
    UpdateView(kind, s, m, op, x);
    var m' := Apply(kind, m, op);
    assert m'[op.key].vs != [] by { hide View; }
    hide Apply, ItemOk, ValOk, View, NewRec, CoversLength, Held;
  }

  /** The chain after statements have ended, and what the tree sees of it. */
  lemma EndedOk(kind: IndexKind, k: Key, it: Item, n: nat, sts: V.RecordStatus)
    requires ItemOk(kind, it) && CanEnd(it.vs, n)
    requires sts == V.ROLLBACKED || (sts == V.COMMITED && forall i :: n <= i < |it.vs| ==> !V.Updated(it.vs[i]))
    ensures var w := V.Released(Ended(it.vs, n, sts));
      && (Gone(w) || ItemOk(kind, it.(vs := w))) && RecFit(View(kind, k, it.(vs := w)), MAX_LEAF)
  {
    assert ValOk(kind, it.klen, it.vs[0].val);
    var w := V.Released(Ended(it.vs, n, sts));
    hide V.Released, Ended, V.Survivor;
    if sts == V.COMMITED {
      CommitReleases(it.vs, n);
      assert V.VersionOk(w, 0);
    } else {
      RollbackReleases(it.vs, n);
      if n < |it.vs| {
        RestOk(kind, it, n, it.vs[0].del);
        assert ValOk(kind, it.klen, it.vs[n].val) && ValOk(kind, it.klen, it.vs[|it.vs| - 1].val);
      }
    }
    hide ValOk;
    ViewFits(kind, k, it.(vs := w));
  }

  /** A commit leaves the newest version alone; a committed DELETE leaves nothing. */
  lemma CommitReleases(vs: seq<V.Version>, n: nat)
    requires V.VersionsOk(vs) && CanEnd(vs, n)
    ensures V.Released(Ended(vs, n, V.COMMITED)) == [V.Version(vs[0].val, vs[0].lock.value.actType == V.DELETE, None)]
  {
    assert V.VersionOk(vs, 0);
  }

  /** A rollback goes back to the newest version not rolled back, with the flag of the version on top. */
  lemma RollbackReleases(vs: seq<V.Version>, n: nat)
    requires V.VersionsOk(vs) && CanEnd(vs, n) && forall i :: 0 <= i < |vs| ==> Open(vs[i])
    ensures V.Released(Ended(vs, n, V.ROLLBACKED))
            == if n == |vs| then [V.Version([], true, None)] else vs[n..][0 := vs[n].(del := vs[0].del)]
  {
    var u := Ended(vs, n, V.ROLLBACKED);
    Survives(u, n);
    if n < |vs| {
      assert V.VersionOk(vs, n);
      assert u[n] == vs[n] && u[0].del == vs[0].del;
      assert u[n..] == vs[n..];
      if vs[n].lock.None? { assert |vs| == n + 1 && vs[n..] == [vs[n]]; }
    }
  }

  /** Releasing late gives the same as releasing at once: when more statements of the chain end before its release. */
  lemma ReleasedLater(vs: seq<V.Version>, n: nat, n2: nat, sts: V.RecordStatus)
    requires V.VersionsOk(vs) && CanEnd(vs, n) && n < |vs| && forall i :: 0 <= i < |vs| ==> Open(vs[i])
    requires CanEnd(vs[n..], n2) && (sts == V.COMMITED || sts == V.ROLLBACKED)
    ensures var w := V.Released(Ended(vs, n, V.ROLLBACKED));
      && CanEnd(w, n2)
      && V.Released(Ended(vs, n, V.ROLLBACKED)[..n] + Ended(vs[n..], n2, sts)) == V.Released(Ended(w, n2, sts))
  {
    hide V.Released, V.VersionsOk, Ended, Open;
    var w := vs[n..][0 := vs[n].(del := vs[0].del)];
    RollbackReleases(vs, n);
    ChainBelow(vs, n);
    assert CanEnd(w, n2) by { assert V.Updated(vs[n..][0]); }
    if sts == V.ROLLBACKED {
      BothBack(vs, n, n2);
      RollbackReleases(vs, n + n2);
      RollbackReleases(w, n2);
      if n + n2 < |vs| { assert w[n2..] == vs[n + n2..]; }
    } else {
      CommitReleases(w, n2);
      ThenCommitted(vs, n, n2);
    }
  }

  lemma BothBack(vs: seq<V.Version>, n: nat, n2: nat)
    requires CanEnd(vs, n) && n < |vs| && CanEnd(vs[n..], n2)
    ensures CanEnd(vs, n + n2)
    ensures Ended(vs, n, V.ROLLBACKED)[..n] + Ended(vs[n..], n2, V.ROLLBACKED) == Ended(vs, n + n2, V.ROLLBACKED)
  {
    forall i | n <= i < n + n2 ensures V.Updated(vs[i]) { assert V.Updated(vs[n..][i - n]); }
  }

  lemma ThenCommitted(vs: seq<V.Version>, n: nat, n2: nat)
    requires CanEnd(vs, n) && n < |vs| && CanEnd(vs[n..], n2)
    ensures vs[n].lock.Some?
    ensures V.Released(Ended(vs, n, V.ROLLBACKED)[..n] + Ended(vs[n..], n2, V.COMMITED))
            == [V.Version(vs[n].val, vs[n].lock.value.actType == V.DELETE, None)]
  {
    assert V.Updated(vs[n..][0]);
    CommitBelow(Ended(vs, n, V.ROLLBACKED)[..n] + Ended(vs[n..], n2, V.COMMITED), n);
  }

  lemma ChainBelow(vs: seq<V.Version>, n: nat)
    requires V.VersionsOk(vs) && 0 < n < |vs| && forall i :: 0 <= i < |vs| ==> Open(vs[i])
    ensures var w := vs[n..][0 := vs[n].(del := vs[0].del)];
      V.VersionsOk(w) && forall i :: 0 <= i < |w| ==> Open(w[i])
  {
    var w := vs[n..][0 := vs[n].(del := vs[0].del)];
    assert V.VersionOk(vs, 0) && V.VersionOk(vs, n);
    if vs[n].lock.Some? {
      var tx := vs[n].lock.value.lstTxid[0];
      assert vs[n].lock.value.lstTxid == [tx] && tx in vs[n].lock.value.lstTxid;
    }
    forall i | 0 <= i < |w| ensures V.VersionOk(w, i) && Open(w[i]) {
      assert V.VersionOk(vs, n + i) && Open(vs[n + i]);
    }
  }

  /** A committed version below rolled back ones. */
  lemma CommitBelow(r: seq<V.Version>, n: nat)
    requires n < |r| && (forall i :: 0 <= i < n ==> V.RolledBack(r[i]))
    requires V.Updated(r[n]) && r[n].lock.value.recStatus == V.COMMITED
    ensures V.Released(r) == [V.Version(r[n].val, r[n].lock.value.actType == V.DELETE, None)]
  {
    Survives(r, n);
  }

  lemma {:induction false} Survives(u: seq<V.Version>, n: nat)
    requires n <= |u| && (forall i :: 0 <= i < n ==> V.RolledBack(u[i])) && (n < |u| ==> !V.RolledBack(u[n]))
    ensures V.Survivor(u) == n
  {
    if n > 0 { Survives(u[1..], n - 1); }
  }

  lemma RestOk(kind: IndexKind, it: Item, n: nat, del: bool)
    requires ItemOk(kind, it) && 0 < n < |it.vs|
    ensures var w := it.vs[n..][0 := it.vs[n].(del := del)]; Gone(w) || ItemOk(kind, it.(vs := w))
  {
    var vs, w := it.vs, it.vs[n..][0 := it.vs[n].(del := del)];
    hide ValOk;
    assert V.VersionOk(vs, 0) && V.VersionOk(vs, n);
    if vs[n].lock.Some? {
      var tx := vs[n].lock.value.lstTxid[0];
      assert vs[n].lock.value.lstTxid == [tx] && tx in vs[n].lock.value.lstTxid;
    }
    forall i | 0 <= i < |w| ensures V.VersionOk(w, i) && Open(w[i]) && ValOk(kind, it.klen, w[i].val) {
      assert V.VersionOk(vs, n + i) && Open(vs[n + i]);
    }
  }

  /** The tree's record after the end of statements. */
  function AfterEnd(kind: IndexKind, m: IndexMap, op: Op): Rec
    requires op.End? && op.key in m && CanEnd(m[op.key].vs, op.n)
  {
    View(kind, op.key, m[op.key].(vs := V.Released(Ended(m[op.key].vs, op.n, op.sts)))).(
      lost := op.n == |m[op.key].vs| && op.sts == V.ROLLBACKED)
  }

  lemma EndedStored(kind: IndexKind, s: seq<Rec>, s': seq<Rec>, m: IndexMap, op: Op)
    requires op.End? && Represents(kind, s, m) && Legal(kind, m, op)
    requires var x := AfterEnd(kind, m, op); forall y :: y in s' <==> (y in s && y.key != op.key) || (y == x && !x.gone)
    ensures Represents(kind, s', Apply(kind, m, op))
  {
    hide ItemOk, View, V.Released, Ended;
    LostIsGone(kind, m, op);
    EndedOk(kind, op.key, m[op.key], op.n, op.sts);
    ViewKey(kind, op.key, m[op.key].(vs := V.Released(Ended(m[op.key].vs, op.n, op.sts))));
  }

  /** A record whose versions are all rolled back waits to be dropped. */
  lemma LostIsGone(kind: IndexKind, m: IndexMap, op: Op)
    requires op.End? && op.key in m && ItemOk(kind, m[op.key]) && CanEnd(m[op.key].vs, op.n)
    ensures op.n == |m[op.key].vs| && op.sts == V.ROLLBACKED ==> Gone(V.Released(Ended(m[op.key].vs, op.n, op.sts)))
  {
    if op.sts == V.ROLLBACKED { RollbackReleases(m[op.key].vs, op.n); }
  }

  lemma LostFits(x: Rec, lost: bool)
    requires RecFit(x, MAX_LEAF) && (lost ==> x.gone)
    ensures RecFit(x.(lost := lost), MAX_LEAF)
  {
  }

  lemma ViewKey(kind: IndexKind, k: Key, it: Item)
    requires |it.vs| > 0
    ensures var x := View(kind, k, it); x.key == k && x.gone == Gone(it.vs) && !x.due && !x.lost
  {
  }

  lemma AfterEndOk(kind: IndexKind, s: seq<Rec>, m: IndexMap, op: Op)
    requires op.End? && Represents(kind, s, m) && Legal(kind, m, op)
    ensures var x := AfterEnd(kind, m, op); RecOk(x, kind != NON_UNIQUE) && x.key == op.key && !x.due
    ensures AfterEnd(kind, m, op).gone <==> Drops(m, op)
  {
    hide ItemOk, V.Released, Ended, RecFit, AfterRelease;
    LostIsGone(kind, m, op);
    HeldByMap(kind, s, m, op.key);
    EndedOk(kind, op.key, m[op.key], op.n, op.sts);
    var it := m[op.key].(vs := V.Released(Ended(m[op.key].vs, op.n, op.sts)));
    ViewKey(kind, op.key, it);
    LostFits(View(kind, op.key, it), op.n == |m[op.key].vs| && op.sts == V.ROLLBACKED);
  }

  /** A record that a DELETE has covered by mistake is lost whether the DELETE commits or is rolled back: nothing is
      left of it, or it comes back with the delete flag. */
  lemma CoveredLost(kind: IndexKind, it: Item, op: Op)
    requires op.Update? && op.act == DELETE && op.tx != V.TXID_NULL && ItemOk(kind, it) && !it.vs[0].del
    requires !V.IsConflict(it.vs[0], op.tx, V.DELETE)
    ensures var vs := [NewVersion(op, true)] + it.vs;
      && CanEnd(vs, 1) && Gone(V.Released(Ended(vs, 1, V.COMMITED)))
      && V.Released(Ended(vs, 1, V.ROLLBACKED)) == it.vs[0 := it.vs[0].(del := true)]
  {
    var vs := [NewVersion(op, true)] + it.vs;
    assert V.VersionOk(it.vs, 0);
    forall i | 0 <= i < |vs| ensures V.VersionOk(vs, i) && Open(vs[i]) {
      if i > 0 { assert V.VersionOk(it.vs, i - 1) && Open(it.vs[i - 1]); }
    }
    CommitReleases(vs, 1);
    RollbackReleases(vs, 1);
    assert vs[1..] == it.vs && vs[1] == it.vs[0];
  }

  // ---------- what ends and erasures do to the map ----------

  /** A commit leaves the newest version alone, and takes the key of a committed DELETE out of the map. */
  lemma CommitApplied(kind: IndexKind, m: IndexMap, k: Key, n: nat)
    requires k in m && V.VersionsOk(m[k].vs) && CanEnd(m[k].vs, n)
    ensures var v := m[k].vs[0];
      Apply(kind, m, End(k, n, V.COMMITED))
      == if v.lock.value.actType == V.DELETE then m - {k} else m[k := m[k].(vs := [V.Version(v.val, false, None)])]
  {
    CommitReleases(m[k].vs, n);
  }

  /** The update brings a new version. */
  predicate Writes(kind: IndexKind, m: IndexMap, op: Op) {
    op.Update? && if Held(m, op.key) then op.act != INSERT && !op.conflict else op.act != DELETE && !InPlace(kind, op)
  }

  lemma WrittenChain(kind: IndexKind, m: IndexMap, op: Op)
    requires Writes(kind, m, op) && Legal(kind, m, op) && (Held(m, op.key) ==> ItemOk(kind, m[op.key]))
    ensures var m' := Apply(kind, m, op);
      && op.key in m' && ItemOk(kind, m'[op.key]) && m' == m[op.key := m'[op.key]]
      && m'[op.key].vs == [NewVersion(op, Held(m, op.key))] + if Held(m, op.key) then m[op.key].vs else []
  {
    if Held(m, op.key) { CoveredChain(kind, m, op); } else { NewChain(kind, op); }
  }

  /** Once committed an update has left its value and nothing else, or no record if it was a DELETE. */
  lemma UpdateThenCommit(kind: IndexKind, m: IndexMap, op: Op, n: nat)
    requires Writes(kind, m, op) && Legal(kind, m, op) && (Held(m, op.key) ==> ItemOk(kind, m[op.key]))
    requires Legal(kind, Apply(kind, m, op), End(op.key, n, V.COMMITED))
    ensures Apply(kind, Apply(kind, m, op), End(op.key, n, V.COMMITED))
            == if op.act == DELETE then m - {op.key}
               else m[op.key := Item([V.Version(op.val, false, None)], op.klen)]
  {
    WrittenChain(kind, m, op);
    var m' := Apply(kind, m, op);
    CommitApplied(kind, m', op.key, n);
    KeyOut(m, op.key, m'[op.key]);
  }

  /** Rolled back at once an UPDATE has left no trace, nor has the INSERT of a new key, but a DELETE has: the record
      it covered carries its flag. */
  lemma UpdateThenRollback(kind: IndexKind, m: IndexMap, op: Op)
    requires Writes(kind, m, op) && Legal(kind, m, op) && (Held(m, op.key) ==> ItemOk(kind, m[op.key]))
    ensures var r := Apply(kind, Apply(kind, m, op), End(op.key, 1, V.ROLLBACKED));
      && (!Held(m, op.key) ==> r == m - {op.key})
      && (Held(m, op.key) && op.act == UPDATE ==> r == m)
      && (Held(m, op.key) && op.act == DELETE ==> !Held(r, op.key))
  {
    WrittenChain(kind, m, op);
    var m', k := Apply(kind, m, op), op.key;
    var vs := m'[k].vs;
    RollbackReleases(vs, 1);
    KeyOut(m, k, m'[k]);
    if Held(m, k) {
      assert vs[1..] == m[k].vs && vs[1] == m[k].vs[0];
      assert op.act == UPDATE ==> m[k].vs[0 := m[k].vs[0].(del := false)] == m[k].vs;
    } else {
      assert |vs| == 1;
    }
  }

  /** Rolling back everything down to the committed version brings that back exactly when no DELETE is among it:
      the delete flag stays on the record, which leaves the map. */
  lemma RollbackApplied(kind: IndexKind, m: IndexMap, k: Key)
    requires k in m && ItemOk(kind, m[k]) && |m[k].vs| > 1 && !V.Updated(m[k].vs[|m[k].vs| - 1])
    ensures var vs := m[k].vs; var n := |vs| - 1;
      Apply(kind, m, End(k, n, V.ROLLBACKED)) == if vs[0].del then m - {k} else m[k := m[k].(vs := [vs[n]])]
  {
    var vs := m[k].vs;
    var n := |vs| - 1;
    forall i | 0 <= i < n ensures V.Updated(vs[i]) { assert V.VersionOk(vs, i); }
    RollbackReleases(vs, n);
    assert V.VersionOk(vs, n) && Open(vs[n]);
    assert vs[n..] == [vs[n]] && CanEnd(vs, n);
    assert V.Released(Ended(vs, n, V.ROLLBACKED)) == [vs[n].(del := vs[0].del)];
    assert !vs[n].del && vs[n].(del := false) == vs[n];
  }

  /** An update that erases a record under an unfinished DELETE forgets its chain, whichever it was, and whoever
      holds the lock: no test for a conflict comes before (src/core/LeafPage.cpp:241-250). */
  lemma ErasedForgotten(kind: IndexKind, m: IndexMap, m': IndexMap, op: Op)
    requires Erases(kind, m, op) && Erases(kind, m', op) && m - {op.key} == m' - {op.key}
    ensures Apply(kind, m, op) == Apply(kind, m', op)
  {
    var r, r' := Apply(kind, m, op), Apply(kind, m', op);
    forall k ensures (k in r <==> k in r') && (k in r ==> r[k] == r'[k]) {
      if k != op.key {
        assert k in m <==> k in m - {op.key};
        assert k in m' <==> k in m' - {op.key};
      }
    }
  }

  /** So the record is lost when the update is rolled back, although its DELETE never committed. */
  lemma ErasedLost(kind: IndexKind, m: IndexMap, op: Op)
    requires Erases(kind, m, op) && op.tx != V.TXID_NULL
    ensures Apply(kind, Apply(kind, m, op), End(op.key, 1, V.ROLLBACKED)) == m - {op.key}
  {
    var vs := [NewVersion(op, false)];
    assert V.VersionOk(vs, 0);
    RollbackReleases(vs, 1);
    KeyOut(m, op.key, Item(vs, op.klen));
  }

  lemma KeyOut(m: IndexMap, k: Key, it: Item)
    ensures m[k := it] - {k} == m - {k}
  {
  }
}
