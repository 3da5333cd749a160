/** Versions and locks of a primary-key record (src/core/LeafRecord.h:30-60 and 310-411,
    src/core/LeafRecord.cpp:243-384 and 549-681, src/statement/Statement.cpp:464-480).

    A changed record keeps its older versions behind its lock.  The model holds the versions as a
    sequence, newest first: version i + 1 is what the lock of version i points at. */
module RecordVersions {
  import opened KeyOrder
  import opened Pages

  type TxId = nat
  type StmtId = nat
  type Value = seq<Byte>  // the bytes of one version

  const TXID_NULL: TxId := 0

  datatype ActionType = NO_ACTION | READ_SHARE | READ_UPDATE | INSERT | UPDATE | DELETE

  predicate ReadLock(a: ActionType) {
    a == READ_SHARE || a == READ_UPDATE
  }

  predicate WriteLock(a: ActionType) {
    a == READ_UPDATE || Updateable(a)
  }

  predicate Updateable(a: ActionType) {
    a == INSERT || a == UPDATE || a == DELETE
  }

  datatype RecordStatus = INIT | LOCK_ONLY | COMMITED | ROLLBACKED | FREEED

  predicate Finished(s: RecordStatus) {
    s == COMMITED || s == ROLLBACKED || s == FREEED
  }

  datatype RecordLock = RecordLock(actType: ActionType, recStatus: RecordStatus, lstTxid: seq<TxId>,
      stmt: Option<StmtId>)

  datatype Version = Version(val: Value, del: bool, lock: Option<RecordLock>)

  datatype Content = Content(val: Value, del: bool)

  datatype ReadResult = OK_NOLOCK | OK_LOCK | LOCKED | REC_DELETE

  datatype ReleaseResult = FINISHED | DELETED | UNFINISH

  // ---------- locks ----------

  /** Transaction x still counts on this lock. */
  predicate Alive(l: RecordLock, x: TxId) {
    x != TXID_NULL && x in l.lstTxid && !Finished(l.recStatus)
  }

  predicate Updated(v: Version) {
    v.lock.Some? && Updateable(v.lock.value.actType)
  }

  predicate IsStable(v: Version) {
    Updated(v) ==> Finished(v.lock.value.recStatus)
  }

  predicate LockReleasable(l: RecordLock) {
    if l.actType == READ_SHARE then forall i :: 0 <= i < |l.lstTxid| ==> l.lstTxid[i] == TXID_NULL
    else Finished(l.recStatus)
  }

  predicate ReleaseLockAble(v: Version) {
    v.lock.Some? && LockReleasable(v.lock.value)
  }

  predicate LockAble(v: Version, tx: TxId, a: ActionType) {
    || v.lock.None?
    || v.lock.value.lstTxid == [tx]
    || (a == READ_SHARE && v.lock.value.actType == READ_SHARE)
  }

  predicate LockOk(l: RecordLock) {
    && |l.lstTxid| > 0 && l.actType != NO_ACTION
    && (l.actType == READ_SHARE ==>
          l.recStatus == LOCK_ONLY
          && forall i, j :: 0 <= i < j < |l.lstTxid| && l.lstTxid[i] == l.lstTxid[j] ==> l.lstTxid[i] == TXID_NULL)
    && (l.actType == READ_UPDATE ==> l.recStatus == LOCK_ONLY || l.recStatus == FREEED)
    && (Updateable(l.actType) ==> l.recStatus != LOCK_ONLY && l.recStatus != FREEED)
    && (l.actType != READ_SHARE ==> |l.lstTxid| == 1 && l.lstTxid[0] != TXID_NULL)
  }

  /** Version i of the chain.  Only an updated version has older ones, and all of them are locked by the
      same transaction; a record deleted in the transaction is not changed again. */
  predicate VersionOk(vs: seq<Version>, i: nat)
    requires i < |vs|
  {
    && (vs[i].lock.Some? ==> LockOk(vs[i].lock.value))
    && (i < |vs| - 1 <==>
          vs[i].lock.Some? && (vs[i].lock.value.actType == UPDATE || vs[i].lock.value.actType == DELETE))
    && (i > 0 ==> !vs[i].del && (vs[i].lock.Some? ==> vs[i].lock.value.actType != DELETE))
    && (i > 0 && vs[i].lock.Some? && vs[0].lock.Some? ==>
          forall x :: x in vs[i].lock.value.lstTxid ==> x == TXID_NULL || vs[0].lock.value.lstTxid == [x])
  }

  ghost predicate VersionsOk(vs: seq<Version>) {
    && |vs| > 0
    && forall i {:trigger VersionOk(vs, i)} :: 0 <= i < |vs| ==> VersionOk(vs, i)
  }

  ghost predicate Holder(vs: seq<Version>, x: TxId) {
    exists i :: 0 <= i < |vs| && vs[i].lock.Some? && Alive(vs[i].lock.value, x)
  }

  /** Two transactions hold locks on a record at the same time only by sharing a read lock on it. */
  lemma SharedMeansRead(vs: seq<Version>, x: TxId, y: TxId)
    requires VersionsOk(vs) && Holder(vs, x) && Holder(vs, y) && x != y
    ensures |vs| == 1 && vs[0].lock.Some? && vs[0].lock.value.actType == READ_SHARE
  {
    var i :| 0 <= i < |vs| && vs[i].lock.Some? && Alive(vs[i].lock.value, x);
    var j :| 0 <= j < |vs| && vs[j].lock.Some? && Alive(vs[j].lock.value, y);
    assert VersionOk(vs, 0) && VersionOk(vs, i) && VersionOk(vs, j);
  }

  predicate IsConflict(v: Version, tx: TxId, a: ActionType) {
    && v.lock.Some? && !Finished(v.lock.value.recStatus)
    && !(a == READ_SHARE && v.lock.value.actType == READ_SHARE)
    && exists i :: 0 <= i < |v.lock.value.lstTxid| && v.lock.value.lstTxid[i] != tx &&
        v.lock.value.lstTxid[i] != TXID_NULL
  }

  /** The conflict test looks at the newest version only.  Once that needs no release it is exact: it says
      whether another transaction holds a lock that does not go together with the action. */
  lemma ConflictIff(vs: seq<Version>, tx: TxId, a: ActionType)
    requires VersionsOk(vs) && !ReleaseLockAble(vs[0])
    ensures IsConflict(vs[0], tx, a)
            <==> (exists x :: x != tx && Holder(vs, x))
                 && !(a == READ_SHARE && vs[0].lock.Some? && vs[0].lock.value.actType == READ_SHARE)
  {
    assert VersionOk(vs, 0);
    if IsConflict(vs[0], tx, a) {
      var l := vs[0].lock.value;
      var i :| 0 <= i < |l.lstTxid| && l.lstTxid[i] != tx && l.lstTxid[i] != TXID_NULL;
      assert Alive(l, l.lstTxid[i]);
      assert Holder(vs, l.lstTxid[i]);
    }
    if x: TxId :| x != tx && Holder(vs, x) {
      var i :| 0 <= i < |vs| && vs[i].lock.Some? && Alive(vs[i].lock.value, x);
      assert VersionOk(vs, i);
      assert x in vs[0].lock.value.lstTxid;
    }
  }

  /** Before that it is not: a rolled back version on top hides an unfinished one below it. */
  lemma ConflictMissed(val: Value, tx: TxId, other: TxId)
    requires tx != TXID_NULL && other != TXID_NULL && tx != other
    ensures var vs := [Version(val, false, Some(RecordLock(UPDATE, ROLLBACKED, [other], None))),
                       Version(val, false, Some(RecordLock(INSERT, INIT, [other], Some(0))))];
      VersionsOk(vs) && Holder(vs, other) && !IsConflict(vs[0], tx, UPDATE)
  {
    var vs := [Version(val, false, Some(RecordLock(UPDATE, ROLLBACKED, [other], None))),
               Version(val, false, Some(RecordLock(INSERT, INIT, [other], Some(0))))];
    assert VersionOk(vs, 0) && VersionOk(vs, 1);
    assert Alive(vs[1].lock.value, other);
  }

  // ---------- reads ----------

  /** What the oldest version says about the committed content: `stuck` marks a delete flag that a rolled
      back DELETE has left on the newest version. */
  ghost predicate BaseOk(vs: seq<Version>, committed: Option<Content>, stuck: bool)
    requires |vs| > 0
  {
    var v := vs[|vs| - 1];
    && (Updated(v) ==> committed.None?)
    && (!Updated(v) && committed.None? ==> v.del)
    && (!Updated(v) && committed.Some? ==>
          v.val == committed.value.val && (v.del == committed.value.del || (stuck && |vs| == 1 && v.del)))
  }

  /** Without a stuck flag the newest version carries the delete flag exactly for a DELETE. */
  ghost predicate FlagOk(vs: seq<Version>, stuck: bool)
    requires |vs| > 0
  {
    Updated(vs[0]) ==>
      && (vs[0].lock.value.actType == DELETE ==> vs[0].del)
      && (!stuck && vs[0].del ==> vs[0].lock.value.actType == DELETE)
  }

  // ---------- release ----------

  /** The newest version that was not rolled back; the length of the chain if there is none. */
  function Survivor(vs: seq<Version>): (k: nat)
    ensures k <= |vs|
    ensures k < |vs| ==> !RolledBack(vs[k])
    ensures forall i :: 0 <= i < k ==> RolledBack(vs[i])
  {
    if vs == [] then 0 else if !RolledBack(vs[0]) then 0 else 1 + Survivor(vs[1..])
  }

  predicate RolledBack(v: Version) {
    Updated(v) && v.lock.value.recStatus == ROLLBACKED
  }

  /** What is left of a chain: its newest version that was not rolled back, alone if nothing locks it any
      more, else with the older ones. */
  function Kept(vs: seq<Version>, k: nat): (r: seq<Version>)
    requires k <= |vs|
    ensures |r| > 0
  {
    if k == |vs| then [Version([], true, None)]
    else if vs[k].lock.Some? && !ReleaseLockAble(vs[k]) then vs[k..]
    else [Version(vs[k].val, if Updated(vs[k]) then vs[k].lock.value.actType == DELETE else vs[k].del, None)]
  }

  /** Release as written: a survivor that is not committed anew takes the delete flag of the version that
      was on top (the move of the older version leaves the flag alone, LeafRecord.h:215-227). */
  function Released(vs: seq<Version>): (r: seq<Version>)
    requires |vs| > 0
    ensures |r| > 0
  {
    var k := Survivor(vs);
    var r := Kept(vs, k);
    if k == |vs| || (Updated(vs[k]) && ReleaseLockAble(vs[k])) then r else r[0 := r[0].(del := vs[0].del)]
  }

  /** So release gives back exactly what survives, unless a survivor that goes back to an older version or
      to an unfinished one has another flag than the version on top had. */
  lemma ReleasedIsKeptIff(vs: seq<Version>)
    requires VersionsOk(vs)
    ensures Released(vs) == Kept(vs, Survivor(vs))
            <==> var k := Survivor(vs);
                 k == |vs| || (Updated(vs[k]) && ReleaseLockAble(vs[k])) || vs[k].del == vs[0].del
  {
    var k := Survivor(vs);
    if k < |vs| && !(Updated(vs[k]) && ReleaseLockAble(vs[k])) {
      var r := Kept(vs, k);
      assert r[0].del == vs[k].del;
      assert r[0 := r[0].(del := vs[0].del)][0].del == vs[0].del;
    }
  }

  /** A rolled back DELETE shows it: the record stays deleted. */
  lemma RolledBackDeleteStays(val: Value, tx: TxId)
    requires tx != TXID_NULL
    ensures var vs := [Version(val, true, Some(RecordLock(DELETE, ROLLBACKED, [tx], None))), Version(val, false, None)];
      VersionsOk(vs) && Released(vs) == [Version(val, true, None)] &&
          Kept(vs, Survivor(vs)) == [Version(val, false, None)]
  {
    var vs := [Version(val, true, Some(RecordLock(DELETE, ROLLBACKED, [tx], None))), Version(val, false, None)];
    assert VersionOk(vs, 0) && VersionOk(vs, 1);
    assert Survivor(vs[1..]) == 0;
  }

  // ---------- the record ----------

  /** The holder check of a read for writing. */
  method HeldByOther(lstTxid: seq<TxId>, tx: TxId) returns (other: bool, i: nat)
    ensures other ==> i < |lstTxid| && lstTxid[i] != TXID_NULL && lstTxid[i] != tx
    ensures !other ==> forall j :: 0 <= j < |lstTxid| ==> lstTxid[j] == TXID_NULL || lstTxid[j] == tx
  {
    i := 0;
    while i < |lstTxid|
      invariant i <= |lstTxid|
      invariant forall j :: 0 <= j < i ==> lstTxid[j] == TXID_NULL || lstTxid[j] == tx
    {
      if lstTxid[i] != TXID_NULL && lstTxid[i] != tx {
        return true, i;
      }
      i := i + 1;
    }
    other := false;
  }

  class LeafRecord {
    var versions: seq<Version>
    ghost var committed: Option<Content>  // what the last released commit left
    ghost var stuck: bool

    ghost predicate Valid()
      reads this
    {
      VersionsOk(versions) && BaseOk(versions, committed, stuck) && FlagOk(versions, stuck)
    }

    /** A record read from disk. */
    constructor Stored(val: Value)
      ensures Valid() && committed == Some(Content(val, false)) && !stuck && forall x :: !Holder(versions, x)
      ensures versions == [Version(val, false, None)]
    {
      versions, committed, stuck := [Version(val, false, None)], Some(Content(val, false)), false;
      assert VersionOk([Version(val, false, None)], 0);
    }

    /** A record a statement inserts. */
    constructor Inserted(val: Value, tx: TxId, stmt: StmtId)
      requires tx != TXID_NULL
      ensures Valid() && committed == None && !stuck && forall x :: Holder(versions, x) <==> x == tx
      ensures versions == [Version(val, false, Some(RecordLock(INSERT, INIT, [tx], Some(stmt))))]
    {
      var lock := RecordLock(INSERT, INIT, [tx], Some(stmt));
      versions, committed, stuck := [Version(val, false, Some(lock))], None, false;
      assert VersionOk([Version(val, false, Some(lock))], 0);
      assert Alive([Version(val, false, Some(lock))][0].lock.value, tx);
    }

    /** ReadListValue: the visible version's values, and for a locking read the lock. */
    method ReadListValue(tx: TxId, stmt: StmtId, atype: ActionType) returns (res: ReadResult, vctVal: Value)
      requires Valid() && !ReleaseLockAble(versions[0]) && tx != TXID_NULL && atype != INSERT
      modifies this`versions
      ensures Valid() && SameVersions(old(versions), versions)
      // a plain read takes no lock and returns what was committed last, whatever the transactions do
      ensures atype == NO_ACTION ==> versions == old(versions)
      ensures atype == NO_ACTION && committed.Some? && !stuck ==>
                if committed.value.del then res == REC_DELETE else res == OK_NOLOCK && vctVal == committed.value.val
      ensures atype == NO_ACTION && committed.None? ==>
                res == if Updated(versions[|versions| - 1]) then LOCKED else REC_DELETE
      // on a record with a stuck flag it does so unless the flag stands on the only version left
      ensures atype == NO_ACTION && committed.Some? && stuck ==>
                if committed.value.del || (|versions| == 1 && versions[0].del) then res == REC_DELETE
                else res == OK_NOLOCK && vctVal == committed.value.val
      ensures atype == NO_ACTION && res == OK_NOLOCK ==> committed == Some(Content(vctVal, false))
      // a read that locks is refused exactly when another transaction's lock stands against it
      ensures WriteLock(atype) ==> (res == LOCKED <==> exists x :: x != tx && Holder(old(versions), x))
      ensures atype == READ_SHARE ==>
                (res == LOCKED <==> old(versions[0]).lock.Some? && old(versions[0]).lock.value.actType != READ_SHARE
                                    && exists x :: x != tx && Holder(old(versions), x))
      ensures res == LOCKED ==> versions == old(versions)
      // one that is not refused finds the record deleted exactly when the newest version is
      ensures atype != NO_ACTION && res != LOCKED ==> (res == REC_DELETE <==> old(versions[0]).del)
      ensures atype != NO_ACTION && res != LOCKED ==> LockAble(versions[0], tx, atype)
      ensures WriteLock(atype) && res != LOCKED ==> forall x :: Holder(versions, x) ==> x == tx
      ensures ReadLock(atype) && (res == OK_LOCK || res == OK_NOLOCK) ==> Holder(versions, tx)
      ensures res == OK_LOCK ==> ReadLock(atype)
      ensures ReadLock(atype) && (res == OK_LOCK || res == OK_NOLOCK) ==>
                (res == OK_LOCK <==> forall x :: Holder(old(versions), x) ==> x != tx)
      ensures atype == READ_UPDATE && (res == OK_LOCK || res == OK_NOLOCK) ==>
                versions[0].lock.Some? && versions[0].lock.value.actType != READ_SHARE
      ensures atype != NO_ACTION && (res == OK_LOCK || res == OK_NOLOCK) ==>
          vctVal == versions[0].val && !versions[0].del
      ensures forall x :: Holder(old(versions), x) && res != LOCKED ==> Holder(versions, x)
      ensures forall x :: Holder(versions, x) ==> x == tx || Holder(old(versions), x)
      ensures res == REC_DELETE ==> vctVal == [] && forall x :: Holder(versions, x) ==> Holder(old(versions), x)
      // the lock keeps its type and its statement, unless it is new or a shared one that turns into a write lock
      ensures forall i :: 0 < i < |versions| ==> versions[i] == old(versions)[i]
      ensures var was, now := old(versions[0]).lock, versions[0].lock;
        if (res == OK_LOCK || res == OK_NOLOCK) && ReadLock(atype) && was.None? then
          now == Some(RecordLock(atype, LOCK_ONLY, [tx], if atype == READ_SHARE then None else Some(stmt)))
        else if (res == OK_LOCK || res == OK_NOLOCK) && atype == READ_UPDATE && was.value.actType == READ_SHARE then
          now.Some? && now.value.(lstTxid := []) == RecordLock(READ_UPDATE, was.value.recStatus, [], Some(stmt))
        else now.Some? == was.Some? && (now.Some? ==> now.value.(lstTxid := []) == was.value.(lstTxid := []))
    {
      hide VersionsOk, Holder, BaseOk, FlagOk, LockReleasable, Alive, LockOk;
      ghost var was := versions;
      vctVal := [];
      FirstVersion(versions);
      var at := 0;
      if versions[0].lock.Some? {
        var lock := versions[0].lock.value;
        if WriteLock(atype) {
          var other, i := HeldByOther(lock.lstTxid, tx);
          if other {
            OtherHolds(versions, i);
            return LOCKED, [];
          }
          Narrowed(versions, tx);
          if |lock.lstTxid| > 1 {
            versions := versions[0 := versions[0].(lock := Some(lock.(lstTxid := [tx])))];
          }
          SameFacts(was, versions, committed, stuck);
        } else if atype == READ_SHARE && lock.actType != READ_SHARE && lock.lstTxid[|lock.lstTxid| - 1] != tx {
          OtherHolds(versions, 0);
          return LOCKED, [];
        } else if atype == NO_ACTION && Updateable(lock.actType) {
          at := VisibleVersion();
          if at == |versions| {
            PlainRead(versions, committed, stuck, at);
            return LOCKED, [];
          }
        }
      }
      if atype == NO_ACTION { PlainRead(versions, committed, stuck, at); }
      NoHolders(was, tx);
      if versions[at].del {
        return REC_DELETE, [];
      }
      res := OK_NOLOCK;
      if ReadLock(atype) {
        res := JoinLock(tx, stmt, atype);
      }
      vctVal := versions[at].val;
    }

    /** The end of a locking read: the transaction joins the lock, or makes one. */
    method JoinLock(tx: TxId, stmt: StmtId, atype: ActionType) returns (res: ReadResult)
      requires Valid() && !ReleaseLockAble(versions[0]) && tx != TXID_NULL && ReadLock(atype)
      requires versions[0].lock.Some? ==>
                 || versions[0].lock.value.lstTxid == [tx]
                 || (atype == READ_SHARE && versions[0].lock.value.actType == READ_SHARE)
      modifies this`versions
      ensures Valid() && SameVersions(old(versions), versions)
      ensures forall x :: Holder(versions, x) <==> Holder(old(versions), x) || x == tx
      ensures res == if Holder(old(versions), tx) then OK_NOLOCK else OK_LOCK
      ensures versions == old(versions)[0 := old(versions[0]).(
                              lock := Some(WithReader(old(versions[0]).lock, tx, stmt, atype)))]
      ensures atype == READ_UPDATE ==>
                versions[0].lock.Some? && versions[0].lock.value.actType != READ_SHARE &&
                    versions[0].lock.value.lstTxid == [tx]
    {
      hide VersionsOk, Holder, BaseOk, FlagOk, LockReleasable, Alive, LockOk;
      ghost var was := versions;
      FirstVersion(versions);
      res := if versions[0].lock.None? || tx !in versions[0].lock.value.lstTxid then OK_LOCK else OK_NOLOCK;
      OnTheLock(versions, tx);
      ReaderAdded(versions, tx, stmt, atype);
      versions := versions[0 := versions[0].(lock := Some(WithReader(versions[0].lock, tx, stmt, atype)))];
      SameFacts(was, versions, committed, stuck);
    }

    /** The walk of a read without lock over the versions of unfinished transactions. */
    method VisibleVersion() returns (at: nat)
      ensures at <= |versions| && (forall i :: 0 <= i < at ==> Updated(versions[i]))
      ensures at < |versions| ==> !Updated(versions[at])
    {
      at := 0;
      while at < |versions| && Updated(versions[at])
        invariant at <= |versions| && forall i :: 0 <= i < at ==> Updated(versions[i])
      {
        at := at + 1;
      }
    }

    /** UpdateRecord: a new version on top, locked by the transaction. */
    method UpdateRecord(tx: TxId, stmt: StmtId, vctVal: Value, type_: ActionType)
      requires Valid() && tx != TXID_NULL && (type_ == UPDATE || type_ == DELETE)
      requires LockAble(versions[0], tx, type_) && !ReleaseLockAble(versions[0]) && !versions[0].del
      modifies this
      ensures Valid() && committed == old(committed)
      ensures |versions| == |old(versions)| + 1 && versions[1..] == old(versions)
      ensures versions[0].del == (type_ == DELETE) && versions[0].val == (if type_ == UPDATE then vctVal else [])
      ensures versions[0].lock == Some(RecordLock(type_, INIT, [tx], Some(stmt))) && !stuck
      ensures forall x :: Holder(versions, x) <==> x == tx
    {
      hide VersionsOk, Holder, BaseOk, FlagOk, LockReleasable, Alive, LockOk;
      FirstVersion(versions);
      var lock := RecordLock(type_, INIT, [tx], Some(stmt));
      var newest := Version(if type_ == UPDATE then vctVal else [], type_ == DELETE, Some(lock));
      VersionAdded(versions, committed, stuck, tx, newest);
      versions := [newest] + versions;
      stuck := false;
    }

    /** SubmitStatement on version i: the end of one statement of the transaction. */
    method SubmitStatement(i: nat, tx: TxId, stmt: StmtId, sts: RecordStatus)
      requires Valid() && i < |versions| && versions[i].lock.Some?
      requires var l := versions[i].lock.value;
        || (l.recStatus == INIT && (sts == COMMITED || sts == ROLLBACKED))
        || (l.recStatus == LOCK_ONLY && sts == FREEED)
      requires var l := versions[i].lock.value;
        if l.actType == READ_SHARE then tx in l.lstTxid && tx != TXID_NULL else l.stmt == Some(stmt)
      modifies this`versions
      ensures Valid() && SameVersions(old(versions), versions)
      ensures forall j :: 0 <= j < |versions| && j != i ==> versions[j] == old(versions)[j]
      ensures versions[i].lock.Some? && versions[i].lock.value.actType == old(versions)[i].lock.value.actType
      ensures if versions[i].lock.value.actType == READ_SHARE then forall x :: Alive(versions[i].lock.value, x) <==>
          Alive(old(versions)[i].lock.value, x) && x != tx
              else
                && versions[i].lock.value == old(versions)[i].lock.value.(stmt := None, recStatus := sts)
                && forall x :: !Alive(versions[i].lock.value, x)
    {
      hide VersionsOk, Holder, BaseOk, FlagOk;
      ghost var was := versions;
      VersionAt(versions, i);
      var l := versions[i].lock.value;
      if sts == FREEED && l.actType == READ_SHARE {
        var j := 0;
        while l.lstTxid[j] != tx
          invariant j < |l.lstTxid| && tx in l.lstTxid[j..]
          decreases |l.lstTxid| - j
        {
          j := j + 1;
        }
        LeftShare(l, j);
        versions := versions[i := versions[i].(lock := Some(l.(lstTxid := l.lstTxid[j := TXID_NULL])))];
      } else {
        versions := versions[i := versions[i].(lock := Some(l.(stmt := None, recStatus := sts)))];
      }
      LockChanged(was, versions, i, committed, stuck);
    }

    /** ReleaseLock.  A commit collapses the chain to its newest version, a rollback goes back to the newest
        version that was not rolled back. */
    method ReleaseLock() returns (res: ReleaseResult)
      requires Valid() && ReleaseLockAble(versions[0]) && OlderStable(versions)
      modifies this
      ensures Valid() && versions == Released(old(versions))
      ensures committed == CommittedAfter(old(versions), old(committed))
      ensures stuck ==> old(stuck) || old(versions[0]).lock.value.actType == DELETE
      ensures res == UNFINISH <==> versions[0].lock.Some?
      ensures res == DELETED <==> Dropped(old(versions))
      decreases |versions|
    {
      hide VersionsOk, BaseOk, FlagOk, LockReleasable, Released, OlderStable, CommittedAfter, Dropped, LockOk;
      ghost var was := versions;
      FirstVersion(versions);
      ReleaseFacts(versions, committed, stuck);
      var lock := versions[0].lock.value;
      if ReadLock(lock.actType) {
        versions := [versions[0].(lock := None)];
        return FINISHED;
      }
      if lock.recStatus == ROLLBACKED {
        if |versions| > 1 {
          BackFacts(versions, committed, stuck);
          versions := [versions[1].(del := versions[0].del)] + versions[2..];
          stuck := versions[0].del;
          if versions[0].lock.None? {
            DoneFacts(versions, committed);
            res := FINISHED;
          } else if !ReleaseLockAble(versions[0]) {
            DoneFacts(versions, committed);
            res := UNFINISH;
          } else {
            res := ReleaseLock();
          }
        } else {
          versions, stuck := [Version([], true, None)], false;
          res := DELETED;
        }
        return;
      }
      var bDel := lock.actType == DELETE;
      committed, stuck := Some(Content(versions[0].val, bDel)), false;
      versions := [Version(versions[0].val, bDel, None)];
      return if bDel then DELETED else FINISHED;
    }
  }

  // ---------- release, version by version ----------

  /** A commit must find the older versions finished. */
  predicate OlderStable(vs: seq<Version>) {
    var k := Survivor(vs);
    k < |vs| && Updated(vs[k]) && ReleaseLockAble(vs[k]) ==> forall i :: k < i < |vs| ==> IsStable(vs[i])
  }

  /** A released commit is what later reads see. */
  function CommittedAfter(vs: seq<Version>, committed: Option<Content>): Option<Content> {
    var k := Survivor(vs);
    if k < |vs| && Updated(vs[k]) && ReleaseLockAble(vs[k])
    then Some(Content(vs[k].val, vs[k].lock.value.actType == DELETE)) else committed
  }

  /** Nothing survives, or a committed DELETE. */
  predicate Dropped(vs: seq<Version>) {
    var k := Survivor(vs);
    k == |vs| || (Updated(vs[k]) && ReleaseLockAble(vs[k]) && vs[k].lock.value.actType == DELETE)
  }

  lemma ReleaseFacts(vs: seq<Version>, committed: Option<Content>, stuck: bool)
    requires VersionsOk(vs) && BaseOk(vs, committed, stuck) && FlagOk(vs, stuck) && ReleaseLockAble(vs[0])
    ensures var v, l := vs[0], vs[0].lock.value;
      && (ReadLock(l.actType) ==>
            var w := [v.(lock := None)];
            VersionsOk(w) && BaseOk(w, committed, stuck) && FlagOk(w, stuck) && Released(vs) == w && !Dropped(vs) &&
                CommittedAfter(vs, committed) == committed)
      && (!ReadLock(l.actType) && l.recStatus != ROLLBACKED ==>
            var d := l.actType == DELETE; var w := [Version(v.val, d, None)];
            VersionsOk(w) && BaseOk(w, Some(Content(v.val, d)), false) && FlagOk(w, false) && Released(vs) == w &&
                (Dropped(vs) <==> d)
            && CommittedAfter(vs, committed) == Some(Content(v.val, d)))
      && (!ReadLock(l.actType) && l.recStatus == ROLLBACKED && |vs| == 1 ==>
            var w := [Version([], true, None)];
            VersionsOk(w) && BaseOk(w, committed, false) && FlagOk(w, false) && Released(vs) == w && Dropped(vs) &&
                CommittedAfter(vs, committed) == committed)
  {
    assert VersionOk(vs, 0);
    assert VersionOk([vs[0].(lock := None)], 0);
    assert VersionOk([Version(vs[0].val, vs[0].lock.value.actType == DELETE, None)], 0);
    assert VersionOk([Version([], true, None)], 0);
  }

  /** Going back by one version. */
  lemma BackFacts(vs: seq<Version>, committed: Option<Content>, stuck: bool)
    requires VersionsOk(vs) && BaseOk(vs, committed, stuck) && FlagOk(vs, stuck) && |vs| > 1 && RolledBack(vs[0])
    ensures var w := [vs[1].(del := vs[0].del)] + vs[2..];
      && VersionsOk(w) && BaseOk(w, committed, vs[0].del) && FlagOk(w, vs[0].del)
      && Released(vs) == Released(w) && (Dropped(vs) <==> Dropped(w)) &&
          CommittedAfter(vs, committed) == CommittedAfter(w, committed)
      && (OlderStable(vs) ==> OlderStable(w))
      && (vs[0].del ==> stuck || vs[0].lock.value.actType == DELETE)
      && (w[0].lock.Some? ==> w[0].lock.value.actType != DELETE)
  {
    var w := [vs[1].(del := vs[0].del)] + vs[2..];
    BackChain(vs);
    BackBase(vs, committed, stuck);
    hide Survivor, Kept, Released, VersionOk, BaseOk, FlagOk, VersionsOk, LockReleasable;
    SurvivorBack(vs, w);
    ReleasedBack(vs, w);
    assert forall i :: 0 < i < |w| ==> w[i] == vs[i + 1];
  }

  lemma BackBase(vs: seq<Version>, committed: Option<Content>, stuck: bool)
    requires VersionsOk(vs) && BaseOk(vs, committed, stuck) && FlagOk(vs, stuck) && |vs| > 1 && RolledBack(vs[0])
    ensures var w := [vs[1].(del := vs[0].del)] + vs[2..];
      && BaseOk(w, committed, vs[0].del) && FlagOk(w, vs[0].del)
      && (vs[0].del ==> stuck || vs[0].lock.value.actType == DELETE)
      && (w[0].lock.Some? ==> w[0].lock.value.actType != DELETE)
  {
    assert VersionOk(vs, 0) && VersionOk(vs, 1) && VersionOk(vs, |vs| - 1);
  }

  lemma BackChain(vs: seq<Version>)
    requires VersionsOk(vs) && |vs| > 1
    ensures VersionsOk([vs[1].(del := vs[0].del)] + vs[2..])
  {
    var w := [vs[1].(del := vs[0].del)] + vs[2..];
    assert VersionOk(vs, 0) && VersionOk(vs, 1);
    if |vs| > 2 { assert vs[1].lock.value.lstTxid[0] in vs[1].lock.value.lstTxid; }
    forall i | 0 <= i < |w| ensures VersionOk(w, i) { assert VersionOk(vs, i + 1); }
  }

  lemma SurvivorBack(vs: seq<Version>, w: seq<Version>)
    requires |vs| > 1 && RolledBack(vs[0]) && w == [vs[1].(del := vs[0].del)] + vs[2..]
    ensures Survivor(vs) == 1 + Survivor(w)
  {
    assert vs[1..][1..] == vs[2..] == w[1..];
  }

  lemma ReleasedBack(vs: seq<Version>, w: seq<Version>)
    requires |vs| > 1 && RolledBack(vs[0]) && w == [vs[1].(del := vs[0].del)] + vs[2..] &&
        Survivor(vs) == 1 + Survivor(w)
    ensures Released(vs) == Released(w)
    ensures Dropped(vs) <==> Dropped(w)
  {
    hide Survivor;
    var k := Survivor(w);
    if k > 0 {
      SameTail(vs, w, k);
      assert Kept(vs, k + 1) == Kept(w, k);
    } else {
      assert w[0] == vs[1].(del := vs[0].del);
      FirstKept(vs, w);
    }
  }

  lemma SameTail(vs: seq<Version>, w: seq<Version>, k: nat)
    requires |vs| > 1 && w == [vs[1].(del := vs[0].del)] + vs[2..] && 0 < k <= |w|
    ensures vs[k + 1..] == w[k..] && (k < |w| ==> vs[k + 1] == w[k])
  {
  }

  lemma FirstKept(vs: seq<Version>, w: seq<Version>)
    requires |vs| > 1 && w == [vs[1].(del := vs[0].del)] + vs[2..]
    ensures (if Updated(vs[1]) && ReleaseLockAble(vs[1]) then Kept(vs, 1)
             else Kept(vs, 1)[0 := Kept(vs, 1)[0].(del := vs[0].del)])
            == (if Updated(w[0]) && ReleaseLockAble(w[0]) then Kept(w, 0)
                else Kept(w, 0)[0 := Kept(w, 0)[0].(del := w[0].del)])
  {
    assert vs[1..][0 := vs[1].(del := vs[0].del)] == w;
    assert w[0 := w[0]] == w && w[0..] == w;
  }

  lemma DoneFacts(vs: seq<Version>, committed: Option<Content>)
    requires VersionsOk(vs) && (vs[0].lock.None? || !ReleaseLockAble(vs[0]))
    ensures Released(vs) == vs && !Dropped(vs) && CommittedAfter(vs, committed) == committed
  {
    assert VersionOk(vs, 0);
    assert vs == [vs[0]] + vs[1..];
  }

  /** The lock a locking read leaves behind. */
  function WithReader(lock: Option<RecordLock>, tx: TxId, stmt: StmtId, atype: ActionType): RecordLock {
    if lock.None? then
      RecordLock(atype, LOCK_ONLY, [tx], if atype == READ_SHARE then None else Some(stmt))
    else
      var l := if tx in lock.value.lstTxid then lock.value else lock.value.(lstTxid := lock.value.lstTxid + [tx]);
      if atype == READ_UPDATE && l.actType == READ_SHARE then l.(actType := READ_UPDATE, stmt := Some(stmt)) else l
  }

  lemma FirstVersion(vs: seq<Version>)
    requires VersionsOk(vs)
    ensures |vs| > 0 && (vs[0].lock.None? ==> |vs| == 1)
    ensures vs[0].lock.Some? ==>
              var l := vs[0].lock.value; LockOk(l) && |l.lstTxid| > 0 && (l.actType != READ_SHARE ==> |l.lstTxid| == 1)
  {
    assert VersionOk(vs, 0);
  }

  /** A transaction on the newest version's lock holds it. */
  lemma OtherHolds(vs: seq<Version>, i: nat)
    requires VersionsOk(vs) && !ReleaseLockAble(vs[0]) && vs[0].lock.Some? && i < |vs[0].lock.value.lstTxid|
    requires vs[0].lock.value.actType != READ_SHARE || vs[0].lock.value.lstTxid[i] != TXID_NULL
    ensures Holder(vs, vs[0].lock.value.lstTxid[i])
  {
    assert VersionOk(vs, 0);
    assert Alive(vs[0].lock.value, vs[0].lock.value.lstTxid[i]);
  }

  lemma OnTheLock(vs: seq<Version>, tx: TxId)
    requires VersionsOk(vs) && !ReleaseLockAble(vs[0]) && tx != TXID_NULL
    ensures Holder(vs, tx) <==> vs[0].lock.Some? && tx in vs[0].lock.value.lstTxid
  {
    assert VersionOk(vs, 0);
    if vs[0].lock.Some? && tx in vs[0].lock.value.lstTxid {
      assert Alive(vs[0].lock.value, tx);
    }
    if Holder(vs, tx) {
      var i :| 0 <= i < |vs| && vs[i].lock.Some? && Alive(vs[i].lock.value, tx);
      assert VersionOk(vs, i);
    }
  }

  lemma NoHolders(vs: seq<Version>, tx: TxId)
    requires VersionsOk(vs)
    ensures vs[0].lock.None? ==> forall x :: !Holder(vs, x)
    ensures vs[0].lock.Some? && vs[0].lock.value.lstTxid == [tx] ==> forall x :: Holder(vs, x) ==> x == tx
  {
    assert VersionOk(vs, 0);
    forall x | Holder(vs, x) ensures vs[0].lock.Some? && (vs[0].lock.value.lstTxid == [tx] ==> x == tx) {
      var i :| 0 <= i < |vs| && vs[i].lock.Some? && Alive(vs[i].lock.value, x);
      assert VersionOk(vs, i);
    }
  }

  /** A lock with nobody else on it is the transaction's own. */
  lemma Narrowed(vs: seq<Version>, tx: TxId)
    requires VersionsOk(vs) && !ReleaseLockAble(vs[0]) && vs[0].lock.Some? && tx != TXID_NULL
    requires forall j :: 0 <= j < |vs[0].lock.value.lstTxid| ==>
        vs[0].lock.value.lstTxid[j] == TXID_NULL || vs[0].lock.value.lstTxid[j] == tx
    ensures var vs' := vs[0 := vs[0].(lock := Some(vs[0].lock.value.(lstTxid := [tx])))];
      VersionsOk(vs') && !ReleaseLockAble(vs'[0]) && (|vs[0].lock.value.lstTxid| == 1 ==> vs' == vs)
      && forall x :: (Holder(vs, x) <==> x == tx) && (Holder(vs', x) <==> x == tx)
  {
    var l := vs[0].lock.value;
    var vs' := vs[0 := vs[0].(lock := Some(l.(lstTxid := [tx])))];
    assert VersionOk(vs, 0);
    var j :| 0 <= j < |l.lstTxid| && l.lstTxid[j] == tx;
    assert Alive(l, tx) && Alive(vs'[0].lock.value, tx);
    if |vs| > 1 { assert |l.lstTxid| == 1; }
    if |l.lstTxid| == 1 {
      assert l.lstTxid == [tx];
      assert vs[0] == vs'[0];
    }
    forall i | 0 <= i < |vs'| ensures VersionOk(vs', i) { assert VersionOk(vs, i); }
    forall x ensures (Holder(vs, x) <==> x == tx) && (Holder(vs', x) <==> x == tx) {
      OneOwner(vs, tx, x);
      OneOwner(vs', tx, x);
    }
  }

  lemma OneOwner(vs: seq<Version>, tx: TxId, x: TxId)
    requires VersionsOk(vs) && vs[0].lock.Some? && Alive(vs[0].lock.value, tx)
    requires forall y :: y in vs[0].lock.value.lstTxid ==> y == TXID_NULL || y == tx
    ensures Holder(vs, x) <==> x == tx
  {
    if Holder(vs, x) {
      var i :| 0 <= i < |vs| && vs[i].lock.Some? && Alive(vs[i].lock.value, x);
      assert VersionOk(vs, i);
    }
  }

  /** A locking read joins the lock. */
  lemma ReaderAdded(vs: seq<Version>, tx: TxId, stmt: StmtId, atype: ActionType)
    requires VersionsOk(vs) && !ReleaseLockAble(vs[0]) && tx != TXID_NULL && ReadLock(atype)
    requires vs[0].lock.Some? ==>
               || vs[0].lock.value.lstTxid == [tx]
               || (atype == READ_SHARE && vs[0].lock.value.actType == READ_SHARE)
    ensures var vs' := vs[0 := vs[0].(lock := Some(WithReader(vs[0].lock, tx, stmt, atype)))];
      && VersionsOk(vs') && (Updated(vs'[0]) <==> Updated(vs[0])) && (Updated(vs[0]) ==> vs'[0].lock == vs[0].lock)
      && (forall x :: Holder(vs', x) <==> Holder(vs, x) || x == tx)
      && (atype == READ_UPDATE ==> vs'[0].lock.value.lstTxid == [tx])
  {
    var l' := WithReader(vs[0].lock, tx, stmt, atype);
    var vs' := vs[0 := vs[0].(lock := Some(l'))];
    assert VersionOk(vs, 0);
    assert Alive(l', tx) && LockOk(l');
    forall i | 0 <= i < |vs'| ensures VersionOk(vs', i) { assert VersionOk(vs, i); }
    forall x ensures Holder(vs', x) <==> Holder(vs, x) || x == tx {
      if Holder(vs', x) && x != tx {
        var i :| 0 <= i < |vs'| && vs'[i].lock.Some? && Alive(vs'[i].lock.value, x);
        assert vs[i].lock.Some? && Alive(vs[i].lock.value, x);
      }
      if Holder(vs, x) {
        var i :| 0 <= i < |vs| && vs[i].lock.Some? && Alive(vs[i].lock.value, x);
        assert vs'[i].lock.Some? && Alive(vs'[i].lock.value, x);
      }
      if x == tx { assert vs'[0].lock.Some?; }
    }
  }

  lemma SameFacts(vs: seq<Version>, vs': seq<Version>, committed: Option<Content>, stuck: bool)
    requires |vs| == |vs'| > 0 && BaseOk(vs, committed, stuck) && FlagOk(vs, stuck)
    requires forall i :: 0 < i < |vs| ==> vs'[i] == vs[i]
    requires vs'[0].val == vs[0].val && vs'[0].del == vs[0].del
    requires vs'[0].lock.Some? && (Updated(vs'[0]) <==> Updated(vs[0]))
    requires Updated(vs[0]) ==> vs'[0].lock.value.actType == vs[0].lock.value.actType
    ensures BaseOk(vs', committed, stuck) && FlagOk(vs', stuck) && SameVersions(vs, vs')
  {
  }

  /** What the walk of a read without lock ends at. */
  lemma PlainRead(vs: seq<Version>, committed: Option<Content>, stuck: bool, at: nat)
    requires VersionsOk(vs) && BaseOk(vs, committed, stuck) && at <= |vs|
    requires forall i :: 0 <= i < at ==> Updated(vs[i])
    requires at < |vs| ==> !Updated(vs[at])
    ensures at == |vs| ==> committed.None? && Updated(vs[|vs| - 1])
    ensures at < |vs| && committed.None? ==> vs[at].del && !Updated(vs[|vs| - 1])
    ensures at < |vs| && committed.Some? ==>
              vs[at].val == committed.value.val && (!stuck ==> vs[at].del == committed.value.del)
              && (stuck ==> (vs[at].del <==> committed.value.del || (|vs| == 1 && vs[0].del)))
  {
    if at < |vs| { assert VersionOk(vs, at); }
  }

  lemma VersionAdded(vs: seq<Version>, committed: Option<Content>, stuck: bool, tx: TxId, v: Version)
    requires VersionsOk(vs) && BaseOk(vs, committed, stuck) && FlagOk(vs, stuck) && tx != TXID_NULL
    requires !ReleaseLockAble(vs[0]) && !vs[0].del && (vs[0].lock.Some? ==> vs[0].lock.value.lstTxid == [tx])
    requires v.lock.Some? && LockOk(v.lock.value) && v.lock.value.lstTxid == [tx] && v.lock.value.recStatus == INIT
    requires v.lock.value.actType == UPDATE || v.lock.value.actType == DELETE
    requires v.del == (v.lock.value.actType == DELETE)
    ensures VersionsOk([v] + vs) && BaseOk([v] + vs, committed, false) && FlagOk([v] + vs, false)
    ensures forall x :: Holder([v] + vs, x) <==> x == tx
  {
    var vs' := [v] + vs;
    assert VersionOk(vs, 0);
    assert Alive(vs'[0].lock.value, tx);
    forall i | 0 <= i < |vs'| ensures VersionOk(vs', i) {
      if i > 0 { assert VersionOk(vs, i - 1); }
    }
    forall x ensures Holder(vs', x) <==> x == tx {
      OneOwner(vs', tx, x);
    }
  }

  lemma VersionAt(vs: seq<Version>, i: nat)
    requires VersionsOk(vs) && i < |vs|
    ensures vs[i].lock.Some? ==> LockOk(vs[i].lock.value)
    ensures vs[i].lock.Some? && Updateable(vs[i].lock.value.actType) ==> vs[i].lock.value.recStatus != LOCK_ONLY
  {
    assert VersionOk(vs, i);
  }

  lemma LeftShare(l: RecordLock, j: nat)
    requires LockOk(l) && l.actType == READ_SHARE && j < |l.lstTxid| && l.lstTxid[j] != TXID_NULL
    ensures var l' := l.(lstTxid := l.lstTxid[j := TXID_NULL]);
      LockOk(l') && (forall x :: Alive(l', x) <==> Alive(l, x) && x != l.lstTxid[j])
      && forall x :: x in l'.lstTxid ==> x == TXID_NULL || x in l.lstTxid
  {
    var tx, ids' := l.lstTxid[j], l.lstTxid[j := TXID_NULL];
    forall x | x != TXID_NULL ensures x in ids' <==> x in l.lstTxid && x != tx {
      if x in l.lstTxid && x != tx {
        var k :| 0 <= k < |l.lstTxid| && l.lstTxid[k] == x;
        assert ids'[k] == x;
      }
    }
  }

  /** Ending a statement changes one lock's holders and status. */
  lemma LockChanged(vs: seq<Version>, vs': seq<Version>, i: nat, committed: Option<Content>, stuck: bool)
    requires VersionsOk(vs) && BaseOk(vs, committed, stuck) && FlagOk(vs, stuck)
    requires i < |vs| == |vs'| && vs[i].lock.Some? && vs'[i].lock.Some? && LockOk(vs'[i].lock.value)
    requires forall j :: 0 <= j < |vs| && j != i ==> vs'[j] == vs[j]
    requires vs'[i] == vs[i].(lock := vs'[i].lock) && vs'[i].lock.value.actType == vs[i].lock.value.actType
    requires forall x :: x in vs'[i].lock.value.lstTxid ==> x == TXID_NULL || x in vs[i].lock.value.lstTxid
    requires vs[i].lock.value.actType != READ_SHARE ==> vs'[i].lock.value.lstTxid == vs[i].lock.value.lstTxid
    ensures VersionsOk(vs') && BaseOk(vs', committed, stuck) && FlagOk(vs', stuck) && SameVersions(vs, vs')
  {
    assert VersionOk(vs, i);
    forall j | 0 <= j < |vs'| ensures VersionOk(vs', j) {
      assert VersionOk(vs, j) && VersionOk(vs, 0);
    }
  }

  /** Reads change locks, not versions. */
  ghost predicate SameVersions(vs: seq<Version>, vs': seq<Version>) {
    |vs| == |vs'| && forall i :: 0 <= i < |vs| ==> vs[i].val == vs'[i].val && vs[i].del == vs'[i].del
  }
}
