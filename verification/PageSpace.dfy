/** Page ids of an index file and their owners (src/core/IndexTree.cpp:279-326,
    src/core/IndexTree.h:223-225, src/core/HeadPage.h:156-167).

    An id below the page counter belongs to exactly one of: a live index page, a live overflow run, the
    free ids.  Locks that cannot be taken are modelled by the parameter `lockFree`. */
module PageSpace {
  import opened GarbageOwner
  import opened PageIds

  class PageSpace {
    const garbage: GarbageOwner
    var totalPageCount: nat
    ghost var indexPages: set<PageId>
    ghost var runs: FreeTree          // live overflow pages: first page id -> number of pages
    ghost var runIds: set<PageId>

    ghost predicate Valid()
      reads this, garbage
    {
      && garbage.Valid() && garbage.totalGarbagePages < UINT32_RANGE
      && Apart(runs) && Covers(runs, runIds)
      && OwnedOnce(indexPages, runIds, garbage.free, totalPageCount)
    }

    constructor ()
      ensures Valid() && fresh(garbage)
      ensures indexPages == {} && runs == map[] && totalPageCount == 0
    {
      garbage := new GarbageOwner();
      totalPageCount, indexPages, runs, runIds := 0, {}, map[], {};
    }

    /** HeadPage::GetAndIncTotalPageCount for index pages. */
    method IndexIdsFromCounter(len: nat) returns (ids: seq<PageId>)
      requires Valid()
      modifies this`totalPageCount, this`indexPages
      ensures Valid()
      ensures |ids| == len && Distinct(ids) && Elems(ids) !! old(indexPages) + old(runIds)
      ensures indexPages == old(indexPages) + Elems(ids)
      ensures Consecutive(ids, old(totalPageCount)) && totalPageCount == old(totalPageCount) + len
    {
      hide Apart, Covers, Distinct, Elems, OwnedOnce, IdRun, Inverse;
      var pid := totalPageCount;
      totalPageCount := totalPageCount + len;
      ids := seq(len, i requires 0 <= i < len => pid + i);
      RunAsSeq(pid, len, ids);
      FromCounter(indexPages, runIds, garbage.free, pid, len);
      indexPages := indexPages + Elems(ids);
    }

    /** How many of `pnum` index pages come from the free ids: the number asked for, cut to 16 bits, or none. */
    function Reused(pnum: nat, lockFree: bool): (n: nat)
      reads this, garbage
      ensures n <= pnum
    {
      var num := pnum % (UINT16_MAX + 1);
      if num != 0 && FindsPages(garbage.treeFreePage, garbage.totalGarbagePages, num, lockFree) then num else 0
    }

    /** The ids the free ids give for `pnum` index pages: the front of a smallest range that is long enough. */
    method IndexIdsFromFree(pnum: nat, lockFree: bool) returns (ids: seq<PageId>)
      requires Valid()
      modifies this`indexPages, garbage
      ensures Valid()
      ensures |ids| == old(Reused(pnum, lockFree)) && Distinct(ids) && Elems(ids) !! old(indexPages) + old(runIds)
      ensures indexPages == old(indexPages) + Elems(ids)
      ensures Elems(ids) <= old(garbage.free) && garbage.free == old(garbage.free) - Elems(ids)
      ensures ids != [] ==> old(BestFit(garbage.treeFreePage, ids[0], |ids|)) && Consecutive(ids, ids[0])
    {
      hide Apart, Covers, Distinct, Elems, OwnedOnce, IdRun, Inverse;
      var num := pnum % (UINT16_MAX + 1);
      ids := [];
      NoElems();
      if num != 0 {
        ids := garbage.ApplyIndexPages(num, lockFree);
        TakenFromFree(indexPages, runIds, old(garbage.free), Elems(ids), totalPageCount);
        indexPages := indexPages + Elems(ids);
      }
    }

    /** IndexTree::ApplyIndexPages: ids from the free ids if the counter and the lock allow the search and one range has
        enough, the others new from the page counter. */
    method ApplyIndexPages(pnum: nat, lockFree: bool) returns (vctId: seq<PageId>)
      requires Valid()
      modifies this`totalPageCount, this`indexPages, garbage
      ensures Valid()
      ensures |vctId| == pnum && Distinct(vctId)
      ensures Elems(vctId) !! old(indexPages) + old(runIds)
      ensures indexPages == old(indexPages) + Elems(vctId)
      ensures var k := old(Reused(pnum, lockFree));
        && garbage.free == old(garbage.free) - Elems(vctId[..k]) && Elems(vctId[..k]) <= old(garbage.free)
        && (k > 0 ==> old(BestFit(garbage.treeFreePage, vctId[0], k)) && Consecutive(vctId[..k], vctId[0]))
        && Consecutive(vctId[k..], old(totalPageCount)) && totalPageCount == old(totalPageCount) + pnum - k
    {
      hide Apart, Covers, Distinct, Elems, OwnedOnce, IdRun, Inverse;
      var ids := IndexIdsFromFree(pnum, lockFree);
      var more := IndexIdsFromCounter(pnum - |ids|);
      DistinctConcat(ids, more);
      vctId := ids + more;
      assert vctId[..|ids|] == ids && vctId[|ids|..] == more;
    }

    /** IndexTree::ApplyOvfPage: a run of consecutive ids. */
    method ApplyOvfPage(num: nat, lockFree: bool) returns (pid: PageId)
      requires Valid() && 0 < num <= UINT16_MAX
      modifies this`totalPageCount, this`runs, this`runIds, garbage
      ensures Valid()
      ensures pid !in old(runs) && runs == old(runs)[pid := num]
      ensures runIds == old(runIds) + IdRun(pid, num) && IdRun(pid, num) !! old(indexPages) + old(runIds)
      // the front of a smallest range if the counter and the lock allow the search and one is long enough
      ensures var reused := old(FindsRun(garbage.treeFreePage, garbage.totalGarbagePages, num, lockFree));
        && (reused ==>
              old(BestFit(garbage.treeFreePage, pid, num)) && garbage.free == old(garbage.free) - IdRun(pid, num))
        && (!reused ==> pid == old(totalPageCount) && garbage.free == old(garbage.free))
        && totalPageCount == old(totalPageCount) + if reused then 0 else num
    {
      hide Apart, Covers, IdRun, Taken, BestFit, OwnedOnce, Inverse;
      var found;
      found, pid := garbage.ApplyOvfPage(num, lockFree);
      if !found {
        pid := totalPageCount;
        totalPageCount := totalPageCount + num;
        FromCounterRun(indexPages, runIds, garbage.free, pid, num);
      } else {
        TakenForRun(indexPages, runIds, old(garbage.free), IdRun(pid, num), totalPageCount);
      }
      InsertApart(runs, runIds, pid, num);
      runs := runs[pid := num];
      runIds := runIds + IdRun(pid, num);
    }

    /** IndexTree::RecyclePageId: a live run becomes free. */
    method RecyclePageId(firstId: PageId, num: nat)
      requires Valid() && firstId in runs && runs[firstId] == num
      modifies this`runs, this`runIds, garbage
      ensures Valid()
      ensures runs == Erase(old(runs), firstId) && runIds == old(runIds) - IdRun(firstId, num)
      ensures garbage.free == old(garbage.free) + IdRun(firstId, num)
      ensures old(Coalesced(garbage.treeFreePage)) ==> Coalesced(garbage.treeFreePage)
    {
      hide Apart, Covers, IdRun, Erase, Coalesced, OwnedOnce, Inverse;
      EraseApart(runs, runIds, firstId);
      SizeBound(runs, firstId);
      RunFreed(indexPages, runIds, garbage.free, IdRun(firstId, num), totalPageCount);
      ghost var b := garbage.RecyclePage(firstId, num);
      runs := Erase(runs, firstId);
      runIds := runIds - IdRun(firstId, num);
    }
  }

  predicate Consecutive(ids: seq<PageId>, pid: PageId) {
    forall i :: 0 <= i < |ids| ==> ids[i] == pid + i
  }

  /** Every id below the counter has exactly one owner, and no other id has one. */
  ghost predicate OwnedOnce(index: set<PageId>, runs: set<PageId>, free: set<PageId>, count: nat) {
    && index !! runs && index !! free && runs !! free
    && (forall k: PageId {:trigger k in index} {:trigger k in runs} {:trigger k in free} ::
          k in index || k in runs || k in free <==> k < count)
  }

  lemma FromCounter(index: set<PageId>, runs: set<PageId>, free: set<PageId>, count: nat, n: nat)
    requires OwnedOnce(index, runs, free, count)
    ensures OwnedOnce(index + IdRun(count, n), runs, free, count + n)
    ensures IdRun(count, n) !! index + runs + free
  {
    hide IdRun;
  }

  lemma FromCounterRun(index: set<PageId>, runs: set<PageId>, free: set<PageId>, count: nat, n: nat)
    requires OwnedOnce(index, runs, free, count)
    ensures OwnedOnce(index, runs + IdRun(count, n), free, count + n)
    ensures IdRun(count, n) !! index + runs + free
  {
    hide IdRun;
  }

  lemma TakenFromFree(index: set<PageId>, runs: set<PageId>, free: set<PageId>, s: set<PageId>, count: nat)
    requires OwnedOnce(index, runs, free, count) && s <= free
    ensures OwnedOnce(index + s, runs, free - s, count) && s !! index + runs
  {
  }

  lemma TakenForRun(index: set<PageId>, runs: set<PageId>, free: set<PageId>, s: set<PageId>, count: nat)
    requires OwnedOnce(index, runs, free, count) && s <= free
    ensures OwnedOnce(index, runs + s, free - s, count) && s !! index + runs
  {
  }

  lemma RunFreed(index: set<PageId>, runs: set<PageId>, free: set<PageId>, s: set<PageId>, count: nat)
    requires OwnedOnce(index, runs, free, count) && s <= runs
    ensures OwnedOnce(index, runs - s, free + s, count) && s !! free
  {
  }
}
