/** Saving a leaf page while transactions run (src/core/LeafPage.cpp:61-168): of every record the page
    image takes the newest finished version, and records that are gone leave the page. */
module LeafSave {
  import opened KeyOrder
  import opened Pages
  import opened RecordVersions
  import PageCodec

  // ---------- one record ----------

  /** The first finished version, or the length of the chain. */
  function FirstStable(vs: seq<Version>): (k: nat)
    ensures k <= |vs|
    ensures k < |vs| ==> IsStable(vs[k])
    ensures forall i :: 0 <= i < k ==> !IsStable(vs[i])
  {
    if vs == [] then 0 else if IsStable(vs[0]) then 0 else 1 + FirstStable(vs[1..])
  }

  /** The version that was there before the transactions now at work; none for a new record. */
  function BaseAt(vs: seq<Version>): nat
    requires |vs| > 0
  {
    if Updated(vs[|vs| - 1]) then |vs| else |vs| - 1
  }

  /** No statement below the newest version has ended. */
  predicate Quiet(vs: seq<Version>) {
    forall i :: 0 < i < |vs| ==> !(Updated(vs[i]) && Finished(vs[i].lock.value.recStatus))
  }

  /** On a record that needs no release, the walk of SaveRecords ends at the version before the running
      transaction exactly when none of the transaction's older statements has ended on its own. */
  lemma FirstStableIff(vs: seq<Version>)
    requires VersionsOk(vs) && !ReleaseLockAble(vs[0])
    ensures FirstStable(vs) == BaseAt(vs) <==> Quiet(vs)
  {
    hide FirstStable;
    var k := FirstStable(vs);
    assert VersionOk(vs, 0) && VersionOk(vs, |vs| - 1);
    if k < |vs| { assert VersionOk(vs, k); }
    if !Quiet(vs) {
      var i :| 0 < i < |vs| && Updated(vs[i]) && Finished(vs[i].lock.value.recStatus);
      assert VersionOk(vs, i) && IsStable(vs[i]);
    }
  }

  /** The record leaves the page. */
  predicate Erased(vs: seq<Version>) {
    |vs| > 0 && IsStable(vs[0]) && vs[0].del
  }

  /** What the page image gets of a record: one version or nothing. */
  function Saved(vs: seq<Version>): seq<Value> {
    var k := FirstStable(vs);
    if Erased(vs) || k == |vs| then [] else [vs[k].val]
  }

  /** What a reader of committed data has of a record: one value or nothing. */
  function Current(committed: Option<Content>): seq<Value> {
    if committed.Some? && !committed.value.del then [committed.value.val] else []
  }

  /** A DELETE was rolled back together with everything below it, down to what was committed before. */
  predicate DeleteTakenBack(vs: seq<Version>) {
    && |vs| > 1 && vs[0].lock.Some? && vs[0].lock.value.actType == DELETE
    && Survivor(vs) == |vs| - 1 && !Updated(vs[|vs| - 1])
  }

  /** What is left of a chain from version k on is a chain, whatever the flag of its newest version. */
  lemma TailChain(vs: seq<Version>, k: nat, del: bool)
    requires VersionsOk(vs) && k < |vs| && Updated(vs[k])
    ensures VersionsOk(vs[k..][0 := vs[k].(del := del)])
  {
    var w := vs[k..][0 := vs[k].(del := del)];
    assert VersionOk(vs, 0) && VersionOk(vs, k);
    var tx := vs[k].lock.value.lstTxid[0];
    assert vs[k].lock.value.lstTxid == [tx] && tx in vs[k].lock.value.lstTxid;
    forall i | 0 <= i < |w| ensures VersionOk(w, i) { assert VersionOk(vs, k + i); }
  }

  /** An unfinished newest version: the one below the transaction is saved, which is the committed one. */
  lemma UnfinishedSaved(vs: seq<Version>, committed: Option<Content>, stuck: bool, k: nat, del: bool)
    requires VersionsOk(vs) && BaseOk(vs, committed, stuck) && k < |vs| && Updated(vs[k]) && !ReleaseLockAble(vs[k])
    requires Quiet(vs[k..][0 := vs[k].(del := del)])
    ensures Saved(vs[k..][0 := vs[k].(del := del)]) == Current(committed)
  {
    hide FirstStable, VersionsOk;
    var w := vs[k..][0 := vs[k].(del := del)];
    TailChain(vs, k, del);
    FirstStableIff(w);
    Oldest(vs);
    Oldest(w);
    assert |w| > 1 ==> w[|w| - 1] == vs[|vs| - 1];
  }

  lemma Oldest(vs: seq<Version>)
    requires VersionsOk(vs)
    ensures |vs| > 0 && (|vs| > 1 ==> !vs[|vs| - 1].del)
    ensures forall i :: 0 <= i < |vs| && !Updated(vs[i]) ==> i == |vs| - 1
  {
    assert VersionOk(vs, |vs| - 1);
    forall i | 0 <= i < |vs| && !Updated(vs[i]) ensures i == |vs| - 1 { assert VersionOk(vs, i); }
  }

  /** A record whose statements end together is saved as it was committed, unless a DELETE was rolled back:
      then the record, still marked as deleted, is erased although it is committed. */
  lemma SavedIsCurrentIff(vs: seq<Version>, committed: Option<Content>)
    requires VersionsOk(vs) && BaseOk(vs, committed, false) && FlagOk(vs, false) && Quiet(Released(vs))
    ensures Saved(Released(vs)) == Current(CommittedAfter(vs, committed)) <==> !DeleteTakenBack(vs)
  {
    hide FirstStable, Quiet, VersionsOk, VersionOk;
    var k := Survivor(vs);
    Oldest(vs);
    if k < |vs| && Updated(vs[k]) && !ReleaseLockAble(vs[k]) {
      UnfinishedSaved(vs, committed, false, k, vs[0].del);
    } else if k == |vs| {
      assert RolledBack(vs[k - 1]);
    }
  }

  /** A statement that has ended below one that has not: its value is saved although the transaction has not
      committed, here even although the statement was rolled back. */
  lemma EndedStatementSaved(tx: TxId, v0: Value, v1: Value, v2: Value)
    requires tx != TXID_NULL
    ensures var vs := [Version(v2, false, Some(RecordLock(UPDATE, INIT, [tx], Some(0)))),
                       Version(v1, false, Some(RecordLock(UPDATE, ROLLBACKED, [tx], None))), Version(v0, false, None)];
      && VersionsOk(vs) && BaseOk(vs, Some(Content(v0, false)), false) && FlagOk(vs, false)
      && Released(vs) == vs && Saved(vs) == [v1]
  {
    var vs := [Version(v2, false, Some(RecordLock(UPDATE, INIT, [tx], Some(0)))),
               Version(v1, false, Some(RecordLock(UPDATE, ROLLBACKED, [tx], None))), Version(v0, false, None)];
    assert VersionOk(vs, 0) && VersionOk(vs, 1) && VersionOk(vs, 2);
    DoneFacts(vs, None);
    assert vs[1..][0] == vs[1];
  }

  // ---------- the records of a page ----------

  /** LeafRecord::GetTotalLength: a version marked as deleted counts nothing. */
  function TotalLength(v: Version): nat {
    if v.del then 0 else |v.val|
  }

  ghost predicate Ready(lr: LeafRecord)
    reads lr
  {
    lr.Valid() && OlderStable(lr.versions)
  }

  /** Versions and committed content after a release. */
  predicate Settled(was: seq<Version>, wasCommitted: Option<Content>, vs: seq<Version>, committed: Option<Content>) {
    |was| > 0 && |vs| > 0 && vs == Released(was) && committed == CommittedAfter(was, wasCommitted)
  }

  ghost predicate AllDifferent(rs: seq<LeafRecord>) {
    forall i, j :: 0 <= i < j < |rs| ==> rs[i] != rs[j]
  }

  ghost function Chains(rs: seq<LeafRecord>): (cs: seq<seq<Version>>)
    reads rs
  {
    seq(|rs|, i requires 0 <= i < |rs| reads rs => rs[i].versions)
  }

  ghost function Committed(rs: seq<LeafRecord>): (os: seq<Option<Content>>)
    reads rs
  {
    seq(|rs|, i requires 0 <= i < |rs| reads rs => rs[i].committed)
  }

  /** The records that stay in the page. */
  function Staying(rs: seq<LeafRecord>, cs: seq<seq<Version>>): seq<LeafRecord>
    requires |rs| == |cs|
  {
    var n := |rs| - 1;
    if rs == [] then [] else Staying(rs[..n], cs[..n]) + if Erased(cs[n]) then [] else [rs[n]]
  }

  /** What the page image gets. */
  function SavedAll(cs: seq<seq<Version>>): seq<Value> {
    if cs == [] then [] else SavedAll(cs[..|cs| - 1]) + Saved(cs[|cs| - 1])
  }

  /** What readers of committed data have of a page. */
  function CurrentAll(os: seq<Option<Content>>): seq<Value> {
    if os == [] then [] else CurrentAll(os[..|os| - 1]) + Current(os[|os| - 1])
  }

  /** What a record counts in the temporary length of its page. */
  function Temp(vs: seq<Version>): nat {
    if vs == [] || Erased(vs) then 0 else TotalLength(vs[0]) + 2
  }

  function TempLength(cs: seq<seq<Version>>): nat {
    if cs == [] then 0 else TempLength(cs[..|cs| - 1]) + Temp(cs[|cs| - 1])
  }

  /** No transaction is at work on the records. */
  predicate AllStable(cs: seq<seq<Version>>) {
    forall k :: 0 <= k < |cs| && cs[k] != [] ==> IsStable(cs[k][0])
  }

  lemma OneMore(rs: seq<LeafRecord>, p: nat, cs: seq<seq<Version>>, c: seq<Version>)
    requires p == |cs| < |rs|
    ensures Staying(rs[..p + 1], cs + [c]) == Staying(rs[..p], cs) + if Erased(c) then [] else [rs[p]]
    ensures SavedAll(cs + [c]) == SavedAll(cs) + Saved(c)
    ensures TempLength(cs + [c]) == TempLength(cs) + Temp(c)
    ensures c != [] ==> (AllStable(cs + [c]) <==> AllStable(cs) && IsStable(c[0]))
  {
    hide Saved, Erased, IsStable, Temp;
    assert rs[..p + 1][..p] == rs[..p] && (cs + [c])[..p] == cs;
    assert (cs + [c])[p] == c;
    assert forall k :: 0 <= k < p ==> (cs + [c])[k] == cs[k];
  }

  /** One record of the loop: release, then the newest finished version. */
  method SaveRecord(lr: LeafRecord) returns (erase: bool, stable: bool, vctLr: seq<Value>)
    requires Ready(lr)
    modifies lr
    ensures lr.Valid() && Settled(old(lr.versions), old(lr.committed), lr.versions, lr.committed)
    ensures (erase <==> Erased(lr.versions)) && |lr.versions| > 0 && (stable <==> IsStable(lr.versions[0]))
    ensures vctLr == Saved(lr.versions) && |vctLr| <= 1 && (erase ==> stable && vctLr == [])
  {
    hide VersionsOk, BaseOk, FlagOk, OlderStable, Released, CommittedAfter, Dropped, LockReleasable, FirstStable;
    Oldest(lr.versions);
    if ReleaseLockAble(lr.versions[0]) {
      ghost var was := lr.versions;
      var res := lr.ReleaseLock();
      if res == DELETED {
        DroppedErased(was);
        return true, true, [];
      }
    } else {
      DoneFacts(lr.versions, lr.committed);
    }
    Oldest(lr.versions);
    if IsStable(lr.versions[0]) {
      erase, stable := lr.versions[0].del, true;
      vctLr := if erase then [] else [lr.versions[0].val];
      return;
    }
    var at := 1;
    while at < |lr.versions| && !IsStable(lr.versions[at])
      invariant 1 <= at <= |lr.versions|
      invariant forall i :: 0 <= i < at ==> !IsStable(lr.versions[i])
    {
      at := at + 1;
    }
    erase, stable := false, false;
    vctLr := if at < |lr.versions| then [lr.versions[at].val] else [];
  }

  lemma DroppedErased(vs: seq<Version>)
    requires VersionsOk(vs) && Dropped(vs)
    ensures Erased(Released(vs))
  {
  }

  lemma SavedLength(a: seq<Value>, b: seq<Value>)
    requires |b| <= 1
    ensures PageCodec.DataLength(a + b) == PageCodec.DataLength(a) + if b == [] then 0 else |b[0]| + 2
  {
    SameBody(a, a + b, |a|);
    if b != [] { assert (a + b)[|a|] == b[0]; }
  }

  lemma {:induction false} SameBody(a: seq<Value>, c: seq<Value>, k: nat)
    requires k <= |a| <= |c| && a == c[..|a|]
    ensures PageCodec.BodyLen(a, k) == PageCodec.BodyLen(c, k)
  {
    if k > 0 { SameBody(a, c, k - 1); }
  }

  /** The first p records are released, with the chains cs; the others are as they were. */
  ghost predicate ReleasedTo(rs: seq<LeafRecord>, cs: seq<seq<Version>>,
                           was: seq<seq<Version>>, wasCommitted: seq<Option<Content>>)
    reads rs
  {
    && |cs| <= |rs| == |was| == |wasCommitted|
    && (forall k :: 0 <= k < |cs| ==>
                      rs[k].Valid() && rs[k].versions == cs[k] &&
                          Settled(was[k], wasCommitted[k], cs[k], rs[k].committed))
    && (forall k :: |cs| <= k < |rs| ==> Ready(rs[k]) && rs[k].versions == was[k] && rs[k].committed == wasCommitted[k])
  }

  /** SaveRecord on the next record of the page. */
  method SaveNext(lr: LeafRecord, ghost rs: seq<LeafRecord>, ghost cs: seq<seq<Version>>,
                  ghost was: seq<seq<Version>>, ghost wasCommitted: seq<Option<Content>>)
    returns (erase: bool, stable: bool, vctLr: seq<Value>)
    requires ReleasedTo(rs, cs, was, wasCommitted) && AllDifferent(rs) && |cs| < |rs| && lr == rs[|cs|]
    modifies lr
    ensures |lr.versions| > 0 && ReleasedTo(rs, cs + [lr.versions], was, wasCommitted)
    ensures (erase <==> Erased(lr.versions)) && (stable <==> IsStable(lr.versions[0]))
    ensures vctLr == Saved(lr.versions) && |vctLr| <= 1 && (erase ==> stable && vctLr == [])
    ensures Temp(lr.versions) == if erase then 0 else TotalLength(lr.versions[0]) + 2
  {
    hide Erased, IsStable, Saved, Ready, Settled, FirstStable;
    erase, stable, vctLr := SaveRecord(lr);
  }

  /** The vector, the position in it and the sums after the records with the chains cs. */
  ghost predicate Selected(rs: seq<LeafRecord>, cs: seq<seq<Version>>, vct: seq<LeafRecord>, i: nat,
                           vctLr: seq<Value>, committedLen: nat, tempLen: nat, bClean: bool)
  {
    && |cs| <= |rs| && i <= |vct| && vct[i..] == rs[|cs|..] && vct[..i] == Staying(rs[..|cs|], cs)
    && vctLr == SavedAll(cs) && committedLen == PageCodec.DataLength(vctLr) && tempLen == TempLength(cs)
    && (bClean <==> AllStable(cs))
  }

  lemma SelectedStart(rs: seq<LeafRecord>)
    requires forall k :: 0 <= k < |rs| ==> Ready(rs[k])
    ensures ReleasedTo(rs, [], Chains(rs), Committed(rs)) && Selected(rs, [], rs, 0, [], 0, 0, true)
  {
    hide Ready;
  }

  lemma SelectedNext(rs: seq<LeafRecord>, cs: seq<seq<Version>>, vct: seq<LeafRecord>, i: nat,
                     vctLr: seq<Value>, committedLen: nat, tempLen: nat, bClean: bool)
    requires Selected(rs, cs, vct, i, vctLr, committedLen, tempLen, bClean)
    ensures i < |vct| ==> |cs| < |rs| && vct[i] == rs[|cs|]
    ensures i == |vct| ==> |cs| == |rs| && vct == Staying(rs, cs)
  {
    if i < |vct| {
      assert vct[i] == vct[i..][0];
    } else {
      assert vct == vct[..i] && rs[..|rs|] == rs;
    }
  }

  lemma SelectedErase(rs: seq<LeafRecord>, cs: seq<seq<Version>>, vct: seq<LeafRecord>, i: nat,
                      vctLr: seq<Value>, committedLen: nat, tempLen: nat, bClean: bool, c: seq<Version>)
    requires Selected(rs, cs, vct, i, vctLr, committedLen, tempLen, bClean) && i < |vct|
    requires c != [] && Erased(c) && Saved(c) == [] && Temp(c) == 0 && IsStable(c[0])
    ensures Selected(rs, cs + [c], vct[..i] + vct[i + 1..], i, vctLr, committedLen, tempLen, bClean)
  {
    hide Erased, Saved, Temp, IsStable, AllStable, Staying, SavedAll, TempLength, PageCodec.DataLength;
    SelectedNext(rs, cs, vct, i, vctLr, committedLen, tempLen, bClean);
    OneMore(rs, |cs|, cs, c);
    assert vct[i..][1..] == vct[i + 1..] && rs[|cs|..][1..] == rs[|cs| + 1..];
    var vct' := vct[..i] + vct[i + 1..];
    assert vct'[..i] == vct[..i] && vct'[i..] == vct[i + 1..];
  }

  lemma SelectedKeep(rs: seq<LeafRecord>, cs: seq<seq<Version>>, vct: seq<LeafRecord>, i: nat,
                     vctLr: seq<Value>, committedLen: nat, tempLen: nat, bClean: bool, c: seq<Version>)
    requires Selected(rs, cs, vct, i, vctLr, committedLen, tempLen, bClean) && i < |vct|
    requires c != [] && !Erased(c) && |Saved(c)| <= 1
    ensures Selected(rs, cs + [c], vct, i + 1, vctLr + Saved(c),
                     committedLen + (if Saved(c) == [] then 0 else |Saved(c)[0]| + 2),
                     tempLen + Temp(c), bClean && IsStable(c[0]))
  {
    hide Erased, Saved, Temp, IsStable, AllStable, Staying, SavedAll, TempLength, PageCodec.DataLength;
    SelectedNext(rs, cs, vct, i, vctLr, committedLen, tempLen, bClean);
    OneMore(rs, |cs|, cs, c);
    SavedLength(vctLr, Saved(c));
    assert vct[i..][1..] == vct[i + 1..] && rs[|cs|..][1..] == rs[|cs| + 1..];
    assert vct[..i + 1] == vct[..i] + [vct[i]];
  }

  /** The loop of SaveRecords over the records of the page, which erases the ones that are gone. */
  method SelectRecords(vctRecord: seq<LeafRecord>)
    returns (vct: seq<LeafRecord>, vctLr: seq<Value>, committedDataLength: nat, tempDataLength: nat, bClean: bool)
    requires AllDifferent(vctRecord) && forall k :: 0 <= k < |vctRecord| ==> Ready(vctRecord[k])
    modifies vctRecord
    ensures ReleasedTo(vctRecord, Chains(vctRecord), old(Chains(vctRecord)), old(Committed(vctRecord)))
    ensures vct == Staying(vctRecord, Chains(vctRecord)) && vctLr == SavedAll(Chains(vctRecord))
    ensures committedDataLength == PageCodec.DataLength(vctLr) && tempDataLength == TempLength(Chains(vctRecord))
    ensures bClean <==> AllStable(Chains(vctRecord))
  {
    hide *;
    vct, vctLr, committedDataLength, tempDataLength, bClean := vctRecord, [], 0, 0, true;
    var i := 0;
    ghost var cs: seq<seq<Version>>, was, wasCommitted := [], Chains(vctRecord), Committed(vctRecord);
    SelectedStart(vctRecord);
    while i < |vct|
      invariant i <= |vct| && ReleasedTo(vctRecord, cs, was, wasCommitted)
      invariant Selected(vctRecord, cs, vct, i, vctLr, committedDataLength, tempDataLength, bClean)
      decreases |vct| - i
    {
      SelectedNext(vctRecord, cs, vct, i, vctLr, committedDataLength, tempDataLength, bClean);
      var lr := vct[i];
      var erase, stable, lrs := SaveNext(lr, vctRecord, cs, was, wasCommitted);
      if erase {
        SelectedErase(vctRecord, cs, vct, i, vctLr, committedDataLength, tempDataLength, bClean, lr.versions);
        vct := vct[..i] + vct[i + 1..];
      } else {
        SelectedKeep(vctRecord, cs, vct, i, vctLr, committedDataLength, tempDataLength, bClean, lr.versions);
        tempDataLength := tempDataLength + TotalLength(lr.versions[0]) + 2;
        bClean := bClean && stable;
        if lrs != [] {
          committedDataLength := committedDataLength + |lrs[0]| + 2;
        }
        vctLr := vctLr + lrs;
        i := i + 1;
      }
      cs := cs + [lr.versions];
    }
    SelectedNext(vctRecord, cs, vct, i, vctLr, committedDataLength, tempDataLength, bClean);
    SelectedEnd(vctRecord, cs, was, wasCommitted, vct, i, vctLr, committedDataLength, tempDataLength, bClean);
  }

  lemma SelectedEnd(rs: seq<LeafRecord>, cs: seq<seq<Version>>, was: seq<seq<Version>>,
      wasCommitted: seq<Option<Content>>,
                    vct: seq<LeafRecord>, i: nat, vctLr: seq<Value>, committedLen: nat, tempLen: nat, bClean: bool)
    requires ReleasedTo(rs, cs, was, wasCommitted) && |cs| == |rs|
    requires Selected(rs, cs, vct, i, vctLr, committedLen, tempLen, bClean)
    ensures cs == Chains(rs) && vctLr == SavedAll(cs) && committedLen == PageCodec.DataLength(vctLr) &&
        tempLen == TempLength(cs)
    ensures bClean <==> AllStable(cs)
  {
  }

  // ---------- the page ----------

  const DATA_BEGIN_OFFSET: nat := 20

  /** A record with no statement that ended alone and no DELETE taken back. */
  ghost predicate Orderly(vs: seq<Version>, committed: Option<Content>) {
    && VersionsOk(vs) && BaseOk(vs, committed, false) && FlagOk(vs, false)
    && Quiet(Released(vs)) && !DeleteTakenBack(vs)
  }

  lemma {:induction false} SavedAllIsCurrent(was: seq<seq<Version>>, wasCommitted: seq<Option<Content>>,
                                             cs: seq<seq<Version>>, os: seq<Option<Content>>)
    requires |was| == |wasCommitted| == |cs| == |os|
    requires forall k :: 0 <= k < |was| ==>
                           Orderly(was[k], wasCommitted[k]) && Settled(was[k], wasCommitted[k], cs[k], os[k])
    ensures SavedAll(cs) == CurrentAll(os)
  {
    hide Orderly, Settled, Saved, Current;
    var n := |was| - 1;
    if n >= 0 {
      SavedAllIsCurrent(was[..n], wasCommitted[..n], cs[..n], os[..n]);
      OrderlySaved(was[n], wasCommitted[n], cs[n], os[n]);
    }
  }

  lemma OrderlySaved(was: seq<Version>, wasCommitted: Option<Content>, vs: seq<Version>, committed: Option<Content>)
    requires Orderly(was, wasCommitted) && Settled(was, wasCommitted, vs, committed)
    ensures Saved(vs) == Current(committed)
  {
    SavedIsCurrentIff(was, wasCommitted);
  }

  /** SaveRecords: the page image is written unless the finished versions are too long for it. */
  method SaveRecords(page: array<Byte>, vctRecord: seq<LeafRecord>)
    returns (vct: seq<LeafRecord>, saved: bool, num: nat, bClean: bool)
    requires page.Length == PageCodec.CRC32_INDEX_OFFSET + 4
    requires AllDifferent(vctRecord) && forall k :: 0 <= k < |vctRecord| ==> Ready(vctRecord[k])
    modifies vctRecord, page
    ensures ReleasedTo(vctRecord, Chains(vctRecord), old(Chains(vctRecord)), old(Committed(vctRecord)))
    ensures vct == Staying(vctRecord, Chains(vctRecord)) && (bClean <==> AllStable(Chains(vctRecord)))
    ensures num == |SavedAll(Chains(vctRecord))|
    ensures saved <==> PageCodec.DataLength(SavedAll(Chains(vctRecord))) <= MAX_LEAF
    ensures saved ==> var recs := SavedAll(Chains(vctRecord));
      forall k {:trigger PageCodec.RecordIn(page[..], DATA_BEGIN_OFFSET, recs, k)} ::
        0 <= k < |recs| ==> PageCodec.RecordIn(page[..], DATA_BEGIN_OFFSET, recs, k)
    ensures !saved ==> page[..] == old(page[..])
  {
    hide Ready, ReleasedTo, AllDifferent, Staying, SavedAll, AllStable, PageCodec.DataLength, PageCodec.RecordIn;
    var vctLr, committedDataLength, tempDataLength;
    vct, vctLr, committedDataLength, tempDataLength, bClean := SelectRecords(vctRecord);
    saved, num := committedDataLength <= MAX_LEAF, |vctLr|;
    if saved {
      PageCodec.SaveRecords(page, DATA_BEGIN_OFFSET, vctLr);
    }
  }

  /** Nothing of a record is lost or unframed. */
  ghost predicate Sane(vs: seq<Version>, committed: Option<Content>) {
    Orderly(vs, committed) && forall v :: v in Current(CommittedAfter(vs, committed)) ==> PageCodec.Framed(v)
  }

  lemma BeforeSave(rs: seq<LeafRecord>)
    requires forall k :: 0 <= k < |rs| ==> Sane(rs[k].versions, rs[k].committed)
    ensures |Chains(rs)| == |Committed(rs)| == |rs|
    ensures forall k :: 0 <= k < |rs| ==> Chains(rs)[k] == rs[k].versions && Committed(rs)[k] == rs[k].committed
    ensures forall k :: 0 <= k < |rs| ==> Sane(Chains(rs)[k], Committed(rs)[k])
  {
    hide Sane;
  }

  lemma AfterSave(rs: seq<LeafRecord>, was: seq<seq<Version>>, wasCommitted: seq<Option<Content>>)
    requires ReleasedTo(rs, Chains(rs), was, wasCommitted)
    requires |was| == |wasCommitted| && forall k :: 0 <= k < |was| ==> Sane(was[k], wasCommitted[k])
    ensures SavedAll(Chains(rs)) == CurrentAll(Committed(rs))
    ensures forall r :: r in SavedAll(Chains(rs)) ==> PageCodec.Framed(r)
    ensures |was| == |rs| && forall k :: 0 <= k < |rs| ==> rs[k].committed == CommittedAfter(was[k], wasCommitted[k])
  {
    hide Orderly, Released, CommittedAfter, Current, PageCodec.Framed;
    SavedAllIsCurrent(was, wasCommitted, Chains(rs), Committed(rs));
    AllFramed(Committed(rs));
  }

  lemma {:induction false} AllFramed(os: seq<Option<Content>>)
    requires forall k, v :: 0 <= k < |os| && v in Current(os[k]) ==> PageCodec.Framed(v)
    ensures forall r :: r in CurrentAll(os) ==> PageCodec.Framed(r)
  {
    if os != [] { AllFramed(os[..|os| - 1]); }
  }

  /** What is loaded from the saved page is what was committed when it was saved: no change of a running or
      rolled back transaction, and nothing that is committed is missing. */
  method SaveThenLoad(page: array<Byte>, vctRecord: seq<LeafRecord>) returns (saved: bool, back: seq<Value>)
    requires page.Length == PageCodec.CRC32_INDEX_OFFSET + 4
    requires AllDifferent(vctRecord) && forall k :: 0 <= k < |vctRecord| ==> Ready(vctRecord[k])
    requires forall k :: 0 <= k < |vctRecord| ==> Sane(vctRecord[k].versions, vctRecord[k].committed)
    modifies vctRecord, page
    ensures saved <==> PageCodec.DataLength(CurrentAll(Committed(vctRecord))) <= MAX_LEAF
    ensures saved ==> back == CurrentAll(Committed(vctRecord))
    ensures forall k :: 0 <= k < |vctRecord| ==>
                          vctRecord[k].committed == CommittedAfter(old(vctRecord[k].versions),
                              old(vctRecord[k].committed))
  {
    hide *;
    ghost var was, wasCommitted := Chains(vctRecord), Committed(vctRecord);
    BeforeSave(vctRecord);
    var vct, num, bClean;
    vct, saved, num, bClean := SaveRecords(page, vctRecord);
    AfterSave(vctRecord, was, wasCommitted);
    back := [];
    if saved {
      back := PageCodec.LoadRecords(page[..], DATA_BEGIN_OFFSET, num, SavedAll(Chains(vctRecord)));
    }
  }
}
