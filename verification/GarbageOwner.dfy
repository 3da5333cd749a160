/** Free page ids and who owns which id (src/core/GarbageOwner.cpp, src/core/IndexTree.cpp:279-326,
    src/core/HeadPage.h:156-167). */
module GarbageOwner {
  import opened PageIds

  /** Range sizes are 16-bit in the source; two neighbours merge while the sum stays below this. */
  const UINT16_MAX: nat := 65535
  const UINT32_RANGE: nat := 0x1_0000_0000

  type FreeTree = map<PageId, nat>        // first page id -> number of pages
  type FreeRanges = map<nat, set<PageId>> // number of pages -> first page ids

  // ---------- the two indexes ----------

  ghost predicate IsFree(tree: FreeTree, k: PageId) {
    exists s :: s in tree && s <= k < s + tree[s]
  }

  ghost predicate Covers(tree: FreeTree, free: set<PageId>) {
    forall k :: k in free <==> IsFree(tree, k)
  }

  /** Ranges are not empty and do not overlap. */
  ghost predicate Apart(tree: FreeTree) {
    && (forall s :: s in tree ==> 0 < tree[s] <= UINT16_MAX)
    && (forall s, r :: s in tree && r in tree && s < r ==> s + tree[s] <= r)
  }

  /** The two indexes are inverse to each other, and no size is kept without a range. */
  ghost predicate Inverse(tree: FreeTree, ranges: FreeRanges) {
    && (forall s :: s in tree ==> tree[s] in ranges && s in ranges[tree[s]])
    && (forall n :: n in ranges ==> ranges[n] != {})
    && (forall n, s :: n in ranges && s in ranges[n] ==> s in tree && tree[s] == n)
  }

  /** No two ranges that touch could be one range. */
  ghost predicate Coalesced(tree: FreeTree) {
    forall s :: s in tree && s + tree[s] in tree ==> tree[s] + tree[s + tree[s]] >= UINT16_MAX
  }

  function Insert(tree: FreeTree, pid: PageId, num: nat): FreeTree {
    tree[pid := num]
  }

  function Erase(tree: FreeTree, pid: PageId): (r: FreeTree)
    ensures forall s :: s in r <==> s in tree && s != pid
    ensures forall s :: s in r ==> r[s] == tree[s]
  {
    tree - {pid}
  }

  lemma IdsFree(tree: FreeTree, free: set<PageId>, s: PageId, k: PageId)
    requires Covers(tree, free) && s in tree && s <= k < s + tree[s]
    ensures k in free
  {
    assert IsFree(tree, k);
  }

  lemma RangeOf(tree: FreeTree, free: set<PageId>, k: PageId) returns (s: PageId)
    requires Covers(tree, free) && k in free
    ensures s in tree && s <= k < s + tree[s]
  {
    assert IsFree(tree, k);
    s :| s in tree && s <= k < s + tree[s];
  }

  lemma CoversBy(tree: FreeTree, free: set<PageId>)
    requires forall k :: k in free ==> IsFree(tree, k)
    requires forall s, k: PageId :: s in tree && s <= k < s + tree[s] ==> k in free
    ensures Covers(tree, free)
  {
  }

  lemma EraseApart(tree: FreeTree, free: set<PageId>, pid: PageId)
    requires Apart(tree) && Covers(tree, free) && pid in tree
    ensures Apart(Erase(tree, pid)) && IdRun(pid, tree[pid]) <= free
    ensures Covers(Erase(tree, pid), free - IdRun(pid, tree[pid]))
  {
    hide IdRun, Erase, Covers;
    var t, f := Erase(tree, pid), free - IdRun(pid, tree[pid]);
    forall k | k in f ensures IsFree(t, k) {
      var s := RangeOf(tree, free, k);
      assert s in t;
    }
    forall s, k: PageId | s in t && s <= k < s + t[s] ensures k in f {
      IdsFree(tree, free, s, k);
      if s < pid { assert s + tree[s] <= pid; } else { assert pid + tree[pid] <= s; }
    }
    CoversBy(t, f);
    forall k | k in IdRun(pid, tree[pid]) ensures k in free { IdsFree(tree, free, pid, k); }
  }

  lemma InsertApart(tree: FreeTree, free: set<PageId>, pid: PageId, num: nat)
    requires Apart(tree) && Covers(tree, free) && 0 < num <= UINT16_MAX && IdRun(pid, num) !! free
    ensures pid !in tree && Apart(Insert(tree, pid, num))
    ensures Covers(Insert(tree, pid, num), free + IdRun(pid, num))
  {
    hide IdRun, Covers;
    NotOverlapped(tree, free, pid, num);
    var t, f := Insert(tree, pid, num), free + IdRun(pid, num);
    forall k | k in f ensures IsFree(t, k) {
      if k in free {
        var s := RangeOf(tree, free, k);
        assert s in t && s <= k < s + t[s];
      } else {
        assert pid in t && pid <= k < pid + t[pid];
      }
    }
    forall s, k: PageId | s in t && s <= k < s + t[s] ensures k in f {
      if s != pid { IdsFree(tree, free, s, k); }
    }
    CoversBy(t, f);
  }

  /** Where the ranges lie around a run that is not free. */
  lemma NotOverlapped(tree: FreeTree, free: set<PageId>, pid: PageId, num: nat)
    requires Apart(tree) && Covers(tree, free) && num > 0 && IdRun(pid, num) !! free
    ensures pid !in tree
    ensures forall s :: s in tree && s < pid ==> s + tree[s] <= pid
    ensures forall s :: s in tree && pid < s ==> pid + num <= s
  {
    hide IdRun, Covers;
    assert pid in IdRun(pid, num);
    if pid in tree { IdsFree(tree, free, pid, pid); }
    forall s | s in tree && s < pid ensures s + tree[s] <= pid {
      if pid < s + tree[s] { IdsFree(tree, free, s, pid); }
    }
    forall s | s in tree && pid < s ensures pid + num <= s {
      if s < pid + num {
        assert s in IdRun(pid, num);
        IdsFree(tree, free, s, s);
      }
    }
  }

  // ---------- neighbours ----------

  lemma LeastExists(s: set<nat>) returns (m: nat)
    requires s != {}
    ensures m in s && forall x :: x in s ==> m <= x
  {
    var y :| y in s;
    m := y;
    if exists x :: x in s && x < y {
      var x :| x in s && x < y;
      assert x in s - {y};
      m := LeastExists(s - {y});
      assert forall z :: z in s ==> z == y || z in s - {y};
    }
  }

  lemma GreatestExists(s: set<nat>) returns (m: nat)
    requires s != {}
    ensures m in s && forall x :: x in s ==> x <= m
  {
    var y :| y in s;
    m := y;
    if exists x :: x in s && x > y {
      var x :| x in s && x > y;
      assert x in s - {y};
      m := GreatestExists(s - {y});
      assert forall z :: z in s ==> z == y || z in s - {y};
    }
  }

  /** std::map::upper_bound: the first range after the id, if there is one. */
  method UpperBound(tree: FreeTree, pid: PageId) returns (found: bool, r: PageId)
    ensures found ==> r in tree && r > pid && forall s :: s in tree && s > pid ==> r <= s
    ensures !found ==> forall s :: s in tree ==> s <= pid
  {
    var above := set s | s in tree && s > pid;
    if above == {} {
      assert forall s :: s in tree && s > pid ==> s in above;
      return false, 0;
    }
    ghost var m := LeastExists(above);
    assert m in above && forall s :: s in above ==> m <= s;
    r :| r in above && forall s :: s in above ==> r <= s;
    found := true;
    forall s | s in tree && s > pid ensures r <= s { assert s in above; }
  }

  /** The range before the one upper_bound finds. */
  method LastBefore(tree: FreeTree, pid: PageId) returns (found: bool, l: PageId)
    ensures found ==> l in tree && l <= pid && forall s :: s in tree && s <= pid ==> s <= l
    ensures !found ==> forall s :: s in tree ==> s > pid
  {
    var below := set s | s in tree && s <= pid;
    if below == {} {
      assert forall s :: s in tree && s <= pid ==> s in below;
      return false, 0;
    }
    ghost var m := GreatestExists(below);
    assert m in below && forall s :: s in below ==> s <= m;
    l :| l in below && forall s :: s in below ==> s <= l;
    found := true;
    forall s | s in tree && s <= pid ensures s <= l { assert s in below; }
  }

  /** std::map::lower_bound on the sizes: a smallest size that is large enough. */
  method FirstFit(ranges: FreeRanges, num: nat) returns (found: bool, n: nat)
    ensures found ==> n in ranges && n >= num && forall m :: m in ranges && m >= num ==> n <= m
    ensures !found ==> forall m :: m in ranges ==> m < num
  {
    var fits := set m | m in ranges && m >= num;
    if fits == {} {
      assert forall m :: m in ranges && m >= num ==> m in fits;
      return false, 0;
    }
    ghost var l := LeastExists(fits);
    assert l in fits && forall m :: m in fits ==> l <= m;
    n :| n in fits && forall m :: m in fits ==> n <= m;
    found := true;
    forall m | m in ranges && m >= num ensures n <= m { assert m in fits; }
  }

  // ---------- merging ----------

  /** The neighbour tests of RecyclePage: which ranges touch the run, and how long they are. */
  ghost predicate Touching(tree: FreeTree, pid: PageId, num: nat, lmerge: bool, lid: PageId, lnum: nat,
                           rmerge: bool, rid: PageId, rnum: nat) {
    && (if lmerge then lid in tree && tree[lid] == lnum && lid + lnum == pid
        else lnum == 0 && forall l :: l in tree ==> l + tree[l] != pid)
    && (if rmerge then rid in tree && tree[rid] == rnum && pid + num == rid
        else rnum == 0 && pid + num !in tree)
  }

  function WithoutIf(tree: FreeTree, drop: bool, s: PageId): FreeTree {
    if drop then Erase(tree, s) else tree
  }

  lemma LeftClear(tree: FreeTree, pid: PageId, num: nat, lmerge: bool, lid: PageId, lnum: nat, l: PageId)
    requires Apart(tree) && Coalesced(tree)
    requires if lmerge then lid in tree && tree[lid] == lnum && lid + lnum == pid
             else forall s :: s in tree ==> s + tree[s] != pid
    requires l in tree
    ensures if lmerge && num + lnum < UINT16_MAX then l + tree[l] == lid ==> tree[l] + lnum >= UINT16_MAX
            else l + tree[l] == pid ==> tree[l] + num >= UINT16_MAX
  {
    if lmerge && l + tree[l] == pid {
      SameRangeEnd(tree, l, lid);
    }
  }

  lemma SameRangeEnd(tree: FreeTree, l: PageId, s: PageId)
    requires Apart(tree) && l in tree && s in tree && l + tree[l] == s + tree[s]
    ensures l == s
  {
  }

  lemma RightClear(tree: FreeTree, pid: PageId, num: nat, rmerge: bool, rid: PageId, rnum: nat, n: nat)
    requires Apart(tree) && Coalesced(tree) && num <= n
    requires if rmerge then rid in tree && tree[rid] == rnum && pid + num == rid
             else pid + num !in tree
    ensures if rmerge && n + rnum < UINT16_MAX then rid + rnum in tree ==> rnum + tree[rid + rnum] >= UINT16_MAX
            else pid + num in tree ==> n + tree[pid + num] >= UINT16_MAX
  {
  }

  lemma ApartWithout(tree: FreeTree, drop: bool, s: PageId)
    requires Apart(tree) && Coalesced(tree)
    ensures Apart(WithoutIf(tree, drop, s)) && Coalesced(WithoutIf(tree, drop, s))
  {
    hide Erase;
  }

  /** A run that swallows every neighbour it may swallow leaves no two ranges that could be one. */
  lemma SwallowCoalesced(tree: FreeTree, pid: PageId, num: nat, lmerge: bool, lid: PageId, lnum: nat,
                         rmerge: bool, rid: PageId, rnum: nat, lm: bool, n: nat, rm: bool, id: PageId, n': nat)
    requires Apart(tree) && Coalesced(tree) && num > 0 && pid !in tree
    requires Touching(tree, pid, num, lmerge, lid, lnum, rmerge, rid, rnum)
    requires lm == (lmerge && num + lnum < UINT16_MAX) && n == (if lm then lnum + num else num)
    requires rm == (rmerge && n + rnum < UINT16_MAX) && n' == (if rm then n + rnum else n)
    requires id == if lm then lid else pid
    ensures Coalesced(Insert(WithoutIf(WithoutIf(tree, lm, lid), rm, rid), id, n'))
  {
    var t := WithoutIf(WithoutIf(tree, lm, lid), rm, rid);
    SwallowedLeft(tree, pid, num, lmerge, lid, lnum, rmerge, rid, rnum, lm, n, rm, id, n');
    SwallowedRight(tree, pid, num, lmerge, lid, lnum, rmerge, rid, rnum, lm, n, rm, id, n');
    hide Erase, Apart, Coalesced, Touching, WithoutIf;
    ApartWithout(tree, lm, lid);
    ApartWithout(WithoutIf(tree, lm, lid), rm, rid);
    InsertCoalesced(t, id, n');
  }

  /** On the left of the new range nothing is left that it could be one with ... */
  lemma SwallowedLeft(tree: FreeTree, pid: PageId, num: nat, lmerge: bool, lid: PageId, lnum: nat,
                      rmerge: bool, rid: PageId, rnum: nat, lm: bool, n: nat, rm: bool, id: PageId, n': nat)
    requires Apart(tree) && Coalesced(tree) && num > 0 && pid !in tree
    requires Touching(tree, pid, num, lmerge, lid, lnum, rmerge, rid, rnum)
    requires lm == (lmerge && num + lnum < UINT16_MAX) && n == (if lm then lnum + num else num)
    requires rm == (rmerge && n + rnum < UINT16_MAX) && n' == (if rm then n + rnum else n)
    requires id == if lm then lid else pid
    ensures var t := WithoutIf(WithoutIf(tree, lm, lid), rm, rid);
      id !in t && forall l :: l in t && l + t[l] == id ==> t[l] + n' >= UINT16_MAX
  {
    hide Erase;
    var t := WithoutIf(WithoutIf(tree, lm, lid), rm, rid);
    ApartWithout(tree, lm, lid);
    ApartWithout(WithoutIf(tree, lm, lid), rm, rid);
    forall l | l in t && l + t[l] == id ensures t[l] + n' >= UINT16_MAX {
      LeftClear(tree, pid, num, lmerge, lid, lnum, l);
    }
  }

  /** ... nor on the right. */
  lemma SwallowedRight(tree: FreeTree, pid: PageId, num: nat, lmerge: bool, lid: PageId, lnum: nat,
                       rmerge: bool, rid: PageId, rnum: nat, lm: bool, n: nat, rm: bool, id: PageId, n': nat)
    requires Apart(tree) && Coalesced(tree) && num > 0 && pid !in tree
    requires Touching(tree, pid, num, lmerge, lid, lnum, rmerge, rid, rnum)
    requires lm == (lmerge && num + lnum < UINT16_MAX) && n == (if lm then lnum + num else num)
    requires rm == (rmerge && n + rnum < UINT16_MAX) && n' == (if rm then n + rnum else n)
    requires id == if lm then lid else pid
    ensures var t := WithoutIf(WithoutIf(tree, lm, lid), rm, rid);
      id + n' in t ==> n' + t[id + n'] >= UINT16_MAX
  {
    hide Erase;
    ApartWithout(tree, lm, lid);
    ApartWithout(WithoutIf(tree, lm, lid), rm, rid);
    RightClear(tree, pid, num, rmerge, rid, rnum, n);
    hide Apart, Coalesced;
  }

  function RunIf(drop: bool, s: PageId, k: nat): set<PageId> {
    if drop then IdRun(s, k) else {}
  }

  function LessIf(free: set<PageId>, drop: bool, s: PageId, k: nat): set<PageId> {
    free - RunIf(drop, s, k)
  }

  /** The set of free ids after a merge: erased ranges come back as parts of the merged one. */
  lemma MergedFree(free: set<PageId>, pid: PageId, num: nat, lm: bool, lid: PageId, lnum: nat, rm: bool, rid: PageId,
      rnum: nat,
                   id: PageId, n: nat)
    requires IdRun(pid, num) !! free
    requires lm ==> lid + lnum == pid && IdRun(lid, lnum) <= free
    requires rm ==> rid == pid + num && IdRun(rid, rnum) <= free
    requires id == (if lm then lid else pid)
    requires n == (if lm then lnum else 0) + num + (if rm then rnum else 0)
    ensures LessIf(LessIf(free, lm, lid, lnum), rm, rid, rnum) + IdRun(id, n) == free + IdRun(pid, num)
    ensures IdRun(id, n) !! LessIf(LessIf(free, lm, lid, lnum), rm, rid, rnum)
  {
    hide IdRun, RunIf, LessIf;
    var n1 := (if lm then lnum else 0) + num;
    RunIfLeft(lm, lid, lnum, pid, num, id, n1);
    RunIfRight(rm, rid, rnum, id, n1, n);
    var l, r, run := RunIf(lm, lid, lnum), RunIf(rm, rid, rnum), IdRun(pid, num);
    assert IdRun(id, n) == l + run + r;
    RunIfIn(lm, lid, lnum, free);
    RunIfIn(rm, rid, rnum, free);
    MergedSet(free, run, l, r);
    LessTwice(free, lm, lid, lnum, rm, rid, rnum);
  }

  lemma LessTwice(free: set<PageId>, lm: bool, lid: PageId, lnum: nat, rm: bool, rid: PageId, rnum: nat)
    ensures LessIf(LessIf(free, lm, lid, lnum), rm, rid, rnum) == free - RunIf(lm, lid, lnum) - RunIf(rm, rid, rnum)
  {
  }

  lemma RunIfIn(drop: bool, s: PageId, k: nat, free: set<PageId>)
    requires drop ==> IdRun(s, k) <= free
    ensures RunIf(drop, s, k) <= free
  {
  }

  lemma RunIfLeft(drop: bool, s: PageId, k: nat, a: PageId, n: nat, id: PageId, m: nat)
    requires drop ==> s + k == a
    requires id == (if drop then s else a) && m == (if drop then k else 0) + n
    ensures IdRun(id, m) == RunIf(drop, s, k) + IdRun(a, n)
  {
    hide IdRun;
    if drop { RunJoin(s, k, n); }
  }

  lemma RunIfRight(drop: bool, s: PageId, k: nat, a: PageId, n: nat, m: nat)
    requires drop ==> s == a + n
    requires m == n + if drop then k else 0
    ensures IdRun(a, m) == IdRun(a, n) + RunIf(drop, s, k)
  {
    hide IdRun;
    if drop { RunJoin(a, n, k); }
  }

  lemma RunJoin(a: PageId, n: nat, m: nat)
    ensures IdRun(a, n) + IdRun(a + n, m) == IdRun(a, n + m)
  {
    hide IdRun;
  }

  lemma MergedSet(free: set<PageId>, run: set<PageId>, l: set<PageId>, r: set<PageId>)
    requires l <= free && r <= free && run !! free
    ensures (free - l - r) + (l + run + r) == free + run && (l + run + r) !! (free - l - r)
  {
  }

  /** A range can go in next to its neighbours when neither could be merged with it. */
  lemma InsertCoalesced(tree: FreeTree, pid: PageId, num: nat)
    requires Apart(tree) && Coalesced(tree) && pid !in tree && num > 0
    requires pid + num in tree ==> num + tree[pid + num] >= UINT16_MAX
    requires forall l :: l in tree && l + tree[l] == pid ==> tree[l] + num >= UINT16_MAX
    ensures Coalesced(Insert(tree, pid, num))
  {
  }

  // ---------- merging as written ----------

  /** The two indexes. */
  datatype FreeIndex = FreeIndex(tree: FreeTree, ranges: FreeRanges)

  function InsertBoth(f: FreeIndex, pid: PageId, num: nat): FreeIndex {
    FreeIndex(Insert(f.tree, pid, num), f.ranges[num := (if num in f.ranges then f.ranges[num] else {}) + {pid}])
  }

  function EraseBoth(f: FreeIndex, pid: PageId, num: nat): FreeIndex {
    var left := if num in f.ranges then f.ranges[num] - {pid} else {};
    FreeIndex(Erase(f.tree, pid), if left == {} then f.ranges - {num} else f.ranges[num := left])
  }

  /** A size as the signed 16-bit number the source keeps a neighbour's size in. */
  function AsInt16(n: nat): int
    requires n <= UINT16_MAX
  {
    if n < 32768 then n else n - 65536
  }

  /** The test for a merge: as written, or as it is meant. */
  predicate Merges(merge: bool, num: nat, neighbour: nat, written: bool)
    requires neighbour <= UINT16_MAX
  {
    merge && num + (if written then AsInt16(neighbour) else neighbour) < UINT16_MAX
  }

  /** The ranges that touch a run. */
  datatype Near = Near(lmerge: bool, lid: PageId, lnum: nat, rmerge: bool, rid: PageId, rnum: nat)

  /** RecyclePage with the ranges that touch the run.  Sums are kept in 16 bits. */
  function Recycled(f: FreeIndex, pid: PageId, num: nat, lmerge: bool, lid: PageId, lnum: nat,
                    rmerge: bool, rid: PageId, rnum: nat, written: bool): FreeIndex
    requires lnum <= UINT16_MAX && rnum <= UINT16_MAX
  {
    var lm := Merges(lmerge, num, lnum, written);
    var f1, id, n := if lm then EraseBoth(f, lid, lnum) else f, if lm then lid else pid,
        if lm then (lnum + num) % 65536 else num;
    var rm := Merges(rmerge, n, rnum, written);
    var f2, n' := if rm then EraseBoth(f1, rid, rnum) else f1, if rm then (n + rnum) % 65536 else n;
    InsertBoth(f2, id, n')
  }

  lemma MergedAsMeant(f: FreeIndex, pid: PageId, num: nat, lmerge: bool, lid: PageId, lnum: nat,
                      rmerge: bool, rid: PageId, rnum: nat, lm: bool, n: nat, rm: bool, id: PageId, n': nat)
    requires lnum <= UINT16_MAX && rnum <= UINT16_MAX && num <= UINT16_MAX
    requires lm == (lmerge && num + lnum < UINT16_MAX) && n == (if lm then lnum + num else num)
    requires rm == (rmerge && n + rnum < UINT16_MAX) && n' == (if rm then n + rnum else n)
    requires id == if lm then lid else pid
    ensures var f1 := if lm then EraseBoth(f, lid, lnum) else f;
      InsertBoth(if rm then EraseBoth(f1, rid, rnum) else f1, id, n')
      == Recycled(f, pid, num, lmerge, lid, lnum, rmerge, rid, rnum, false)
  {
    hide InsertBoth, EraseBoth;
  }

  /** The written test goes wrong next to a range of 32768 pages or more that does not fit the bound. */
  predicate Overflows(merge: bool, num: nat, neighbour: nat) {
    merge && neighbour >= 32768 && num + neighbour >= UINT16_MAX
  }

  /** The size of the run after the left merge. */
  function LeftJoined(num: nat, lmerge: bool, lnum: nat): nat {
    if lmerge && num + lnum < UINT16_MAX then lnum + num else num
  }

  /** As written RecyclePage does what it is meant to do exactly when no range that touches the run has 32768 pages or
      more and, with the run, passes the bound. */
  lemma RecycledSameIff(f: FreeIndex, free: set<PageId>, pid: PageId, num: nat, lmerge: bool, lid: PageId, lnum: nat,
                        rmerge: bool, rid: PageId, rnum: nat)
    requires Apart(f.tree) && Inverse(f.tree, f.ranges) && Covers(f.tree, free)
    requires 0 < num <= UINT16_MAX && IdRun(pid, num) !! free
    requires Touching(f.tree, pid, num, lmerge, lid, lnum, rmerge, rid, rnum)
    ensures lnum <= UINT16_MAX && rnum <= UINT16_MAX
    ensures Recycled(f, pid, num, lmerge, lid, lnum, rmerge, rid, rnum, true)
            == Recycled(f, pid, num, lmerge, lid, lnum, rmerge, rid, rnum, false)
            <==> !Overflows(lmerge, num, lnum) && !Overflows(rmerge, LeftJoined(num, lmerge, lnum), rnum)
  {
    hide InsertBoth, EraseBoth, IdRun, Covers, Inverse, Touching, Apart, Recycled;
    NotOverlapped(f.tree, free, pid, num);
    TouchingOk(f.tree, pid, num, lmerge, lid, lnum, rmerge, rid, rnum);
    RecycledMeant(f, pid, num, lmerge, lid, lnum, rmerge, rid, rnum);
    if Overflows(lmerge, num, lnum) {
      LeftOverflow(f, pid, num, lid, lnum, rmerge, rid, rnum);
    } else {
      RecycledLeft(f, pid, num, lmerge, lid, lnum, rmerge, rid, rnum);
      if Overflows(rmerge, LeftJoined(num, lmerge, lnum), rnum) {
        assert rid in Recycled(f, pid, num, lmerge, lid, lnum, rmerge, rid, rnum, false).tree;
      }
    }
  }

  /** Which keys the tree has after RecyclePage as it is meant. */
  lemma RecycledMeant(f: FreeIndex, pid: PageId, num: nat, lmerge: bool, lid: PageId, lnum: nat,
                      rmerge: bool, rid: PageId, rnum: nat)
    requires lnum <= UINT16_MAX && rnum <= UINT16_MAX && (lmerge ==> lid < pid) &&
        (rmerge ==> pid < rid && rid in f.tree)
    ensures var r := Recycled(f, pid, num, lmerge, lid, lnum, rmerge, rid, rnum, false);
      && (!(lmerge && num + lnum < UINT16_MAX) ==> pid in r.tree)
      && (rmerge && !(LeftJoined(num, lmerge, lnum) + rnum < UINT16_MAX) ==> rid in r.tree)
  {
  }

  /** A left merge that should not be takes the run's own key out of the tree. */
  lemma LeftOverflow(f: FreeIndex, pid: PageId, num: nat, lid: PageId, lnum: nat, rmerge: bool, rid: PageId, rnum: nat)
    requires lnum <= UINT16_MAX && rnum <= UINT16_MAX && lid < pid && pid !in f.tree && num <= UINT16_MAX
    requires Overflows(true, num, lnum)
    ensures pid !in Recycled(f, pid, num, true, lid, lnum, rmerge, rid, rnum, true).tree
    ensures !(num + lnum < UINT16_MAX)
  {
  }

  /** Without such a left neighbour everything hangs on the right one. */
  lemma RecycledLeft(f: FreeIndex, pid: PageId, num: nat, lmerge: bool, lid: PageId, lnum: nat,
                     rmerge: bool, rid: PageId, rnum: nat)
    requires lnum <= UINT16_MAX && rnum <= UINT16_MAX && num <= UINT16_MAX && !Overflows(lmerge, num, lnum)
    requires (lmerge ==> lid < pid) && (rmerge ==> pid < rid)
    ensures var w := Recycled(f, pid, num, lmerge, lid, lnum, rmerge, rid, rnum, true);
      var m := Recycled(f, pid, num, lmerge, lid, lnum, rmerge, rid, rnum, false);
      var n := LeftJoined(num, lmerge, lnum);
      && (!Overflows(rmerge, n, rnum) ==> w == m)
      && (Overflows(rmerge, n, rnum) ==> rid !in w.tree && !(n + rnum < UINT16_MAX) && rmerge)
  {
    hide InsertBoth, EraseBoth;
    var n := LeftJoined(num, lmerge, lnum);
    assert Merges(lmerge, num, lnum, true) == Merges(lmerge, num, lnum, false);
    assert Merges(rmerge, n, rnum, true) == Merges(rmerge, n, rnum, false) || Overflows(rmerge, n, rnum);
    var lm := Merges(lmerge, num, lnum, true);
    if rmerge {
      RightErased(if lm then EraseBoth(f, lid, lnum) else f, if lm then lid else pid, rid, rnum, (n + rnum) % 65536);
    }
  }

  lemma RightErased(f: FreeIndex, id: PageId, rid: PageId, rnum: nat, n: nat)
    requires id != rid
    ensures rid !in InsertBoth(EraseBoth(f, rid, rnum), id, n).tree
  {
  }

  lemma TouchingOk(tree: FreeTree, pid: PageId, num: nat, lmerge: bool, lid: PageId, lnum: nat,
                   rmerge: bool, rid: PageId, rnum: nat)
    requires Apart(tree) && num > 0 && Touching(tree, pid, num, lmerge, lid, lnum, rmerge, rid, rnum)
    ensures lnum <= UINT16_MAX && rnum <= UINT16_MAX
    ensures (lmerge ==> lid < pid && lid in tree) && (rmerge ==> pid < rid && rid in tree)
  {
  }

  /** A state in which it goes wrong: pages 40010 to 70009 come back next to a range of 40000 pages.  What is left of
      the 70000 pages is one range that ends before page 4474. */
  lemma RecycleLosesExample(ranges: FreeRanges)
    requires ranges == map[40000 := {10}]
    ensures var f := FreeIndex(map[10 := 40000], ranges);
      && Apart(f.tree) && Coalesced(f.tree) && Inverse(f.tree, f.ranges)
      && Touching(f.tree, 40010, 30000, true, 10, 40000, false, 0, 0)
      && Recycled(f, 40010, 30000, true, 10, 40000, false, 0, 0, true).tree == map[10 := 4464]
  {
    var f := FreeIndex(map[10 := 40000], ranges);
    assert Recycled(f, 40010, 30000, true, 10, 40000, false, 0, 0, true).tree == map[10 := 4464];
  }

  // ---------- taking ----------

  /** A smallest range that is large enough. */
  ghost predicate BestFit(tree: FreeTree, id: PageId, num: nat) {
    id in tree && tree[id] >= num && forall s :: s in tree && tree[s] >= num ==> tree[id] <= tree[s]
  }

  predicate FindsPages(tree: FreeTree, total: nat, num: nat, lockFree: bool) {
    lockFree && total > 0 && exists s :: s in tree && tree[s] >= num
  }

  /** A run is found in the free ids. */
  predicate FindsRun(tree: FreeTree, total: nat, num: nat, lockFree: bool) {
    lockFree && total >= num && exists s :: s in tree && tree[s] >= num
  }

  lemma FitsHere(tree: FreeTree, id: PageId, num: nat)
    requires BestFit(tree, id, num)
    ensures id in tree && exists s :: s in tree && tree[s] >= num
  {
  }

  /** Free pages that are in no range long enough: the counter is lowered although nothing is taken. */
  lemma NothingFoundExample(tree: FreeTree)
    requires tree == map[10 := 1, 20 := 1]
    ensures Apart(tree) && Coalesced(tree) && !FindsPages(tree, 2, 2, true)
  {
  }

  function Taken(tree: FreeTree, id: PageId, num: nat): FreeTree
    requires id in tree
  {
    if tree[id] > num then Insert(Erase(tree, id), id + num, tree[id] - num) else Erase(tree, id)
  }

  /** Taking the front of a range leaves the ranges coalesced exactly when no rest remains, or nothing
      touches the rest, or the two together are still too long to be one range. */
  lemma TakenCoalescedIff(tree: FreeTree, id: PageId, num: nat)
    requires Apart(tree) && Coalesced(tree) && id in tree && 0 < num <= tree[id]
    ensures Coalesced(Taken(tree, id, num))
            <==> (tree[id] > num && id + tree[id] in tree ==> tree[id] - num + tree[id + tree[id]] >= UINT16_MAX)
  {
    hide Erase, Coalesced, Insert;
    ApartWithout(tree, true, id);
    if tree[id] > num {
      if id + tree[id] in tree && tree[id] - num + tree[id + tree[id]] < UINT16_MAX {
        RestTouches(tree, id, num);
      } else {
        RestClear(tree, id, num);
      }
    }
  }

  lemma RestTouches(tree: FreeTree, id: PageId, num: nat)
    requires Apart(tree) && id in tree && 0 < num < tree[id]
    requires id + tree[id] in tree && tree[id] - num + tree[id + tree[id]] < UINT16_MAX
    ensures !Coalesced(Insert(Erase(tree, id), id + num, tree[id] - num))
  {
    hide Erase;
    var t := Insert(Erase(tree, id), id + num, tree[id] - num);
    var s := id + num;
    assert s in t && t[s] == tree[id] - num;
    var r := id + tree[id];
    assert r in t && t[r] == tree[r];
    assert s + t[s] == r;
  }

  lemma RestClear(tree: FreeTree, id: PageId, num: nat)
    requires Apart(tree) && Coalesced(tree) && id in tree && 0 < num < tree[id]
    requires id + tree[id] in tree ==> tree[id] - num + tree[id + tree[id]] >= UINT16_MAX
    ensures Coalesced(Insert(Erase(tree, id), id + num, tree[id] - num))
  {
    hide Apart, Coalesced, Erase, Insert;
    NoneInside(tree, id, num);
    var e := Erase(tree, id);
    assert Apart(e) && Coalesced(e) by { ApartWithout(tree, true, id); }
    EraseOthers(tree, id);
    InsertCoalesced(e, id + num, tree[id] - num);
  }

  lemma EraseOthers(tree: FreeTree, id: PageId)
    ensures forall s :: s in Erase(tree, id) ==> s in tree && s != id && Erase(tree, id)[s] == tree[s]
    ensures forall s :: s in tree && s != id ==> s in Erase(tree, id)
  {
  }

  lemma NoneInside(tree: FreeTree, id: PageId, num: nat)
    requires Apart(tree) && id in tree && 0 < num < tree[id]
    ensures id + num !in tree
    ensures forall l :: l in Erase(tree, id) ==> l + tree[l] != id + num
  {
    hide Erase;
  }

  /** Such a rest exists: 60000 and 10000 adjacent pages cannot be one range, but after 20000 pages of the
      first were taken the rest could, and nothing joins them. */
  lemma TakenNotCoalesced()
    ensures var tree: FreeTree := map[0 := 60000, 60000 := 10000];
            Apart(tree) && Coalesced(tree) && BestFit(tree, 0, 20000) && !Coalesced(Taken(tree, 0, 20000))
  {
    var tree: FreeTree := map[0 := 60000, 60000 := 10000];
    var t := Taken(tree, 0, 20000);
    assert 20000 in t && t[20000] == 40000 && 60000 in t && t[60000] == 10000;
  }

  lemma TakenIs(tree: FreeTree, id: PageId, n: nat, num: nat)
    requires id in tree && tree[id] == n
    ensures n > num ==> Taken(tree, id, num) == Insert(Erase(tree, id), id + num, n - num)
    ensures n <= num ==> Taken(tree, id, num) == Erase(tree, id)
  {
  }

  lemma SizeBound(tree: FreeTree, id: PageId)
    requires Apart(tree) && id in tree
    ensures 0 < tree[id] <= UINT16_MAX
  {
  }

  /** The ids of a range that are not taken come back. */
  lemma RestReturned(tree: FreeTree, free: set<PageId>, id: PageId, n: nat, num: nat)
    requires Apart(tree) && Covers(tree, free) && id in tree && tree[id] == n >= num
    ensures IdRun(id, num) <= IdRun(id, n) <= free
    ensures n == num ==> free - IdRun(id, n) == free - IdRun(id, num)
    ensures (free - IdRun(id, n)) + IdRun(id + num, n - num) == free - IdRun(id, num)
    ensures IdRun(id + num, n - num) !! free - IdRun(id, n)
  {
    hide IdRun, Apart, Covers;
    EraseApart(tree, free, id);
    RunJoin(id, num, n - num);
    RunSplit(id, num, n - num);
  }

  lemma RunSplit(a: PageId, n: nat, m: nat)
    ensures IdRun(a, n) !! IdRun(a + n, m)
  {
    hide IdRun;
  }

  lemma CardLess<T>(a: set<T>, b: set<T>)
    requires b <= a
    ensures |a - b| == |a| - |b|
  {
    assert a == (a - b) + b;
  }

  lemma WrapSub(x: nat, n: nat)
    requires x < UINT32_RANGE && 0 < n < UINT32_RANGE
    ensures (x + UINT32_RANGE - n) % UINT32_RANGE == if n <= x then x - n else x + UINT32_RANGE - n
  {
  }

  lemma RunAsSeq(id: PageId, num: nat, v: seq<PageId>)
    requires |v| == num && forall j :: 0 <= j < num ==> v[j] == id + j
    ensures Distinct(v) && Elems(v) == IdRun(id, num)
  {
    hide IdRun;
    forall k | k in IdRun(id, num) ensures k in v { assert v[k - id] == k; }
  }

  /** With fewer free pages than asked for, no range can be long enough. */
  lemma SmallRanges(tree: FreeTree, free: set<PageId>, num: nat)
    requires Apart(tree) && Covers(tree, free) && |free| < num
    ensures forall s :: s in tree ==> tree[s] < num
  {
    forall s | s in tree ensures tree[s] < num {
      EraseApart(tree, free, s);
      CardLess(free, IdRun(s, tree[s]));
    }
  }

  // ---------- the garbage owner ----------

  class GarbageOwner {
    var treeFreePage: FreeTree
    var rangePage: FreeRanges
    var totalGarbagePages: nat
    ghost var free: set<PageId>

    ghost predicate Valid()
      reads this
    {
      Apart(treeFreePage) && Inverse(treeFreePage, rangePage) && Covers(treeFreePage, free)
    }

    function Indexes(): FreeIndex
      reads this
    {
      FreeIndex(treeFreePage, rangePage)
    }

    /** The counter is the number of free pages. */
    ghost predicate Counted()
      reads this
    {
      totalGarbagePages == |free|
    }

    constructor ()
      ensures Valid() && Counted() && free == {} && Coalesced(treeFreePage)
    {
      treeFreePage, rangePage, totalGarbagePages, free := map[], map[], 0, {};
    }

    method InsertPage(pid: PageId, num: nat)
      requires Valid() && 0 < num <= UINT16_MAX && IdRun(pid, num) !! free
      modifies this`treeFreePage, this`rangePage, this`free
      ensures Valid() && free == old(free) + IdRun(pid, num)
      ensures pid !in old(treeFreePage) && treeFreePage == Insert(old(treeFreePage), pid, num)
      ensures Indexes() == InsertBoth(old(Indexes()), pid, num)
    {
      hide IdRun, Covers, Apart;
      InsertApart(treeFreePage, free, pid, num);
      treeFreePage := treeFreePage[pid := num];
      rangePage := rangePage[num := (if num in rangePage then rangePage[num] else {}) + {pid}];
      free := free + IdRun(pid, num);
    }

    method ErasePage(pid: PageId, num: nat)
      requires Valid() && pid in treeFreePage && treeFreePage[pid] == num
      modifies this`treeFreePage, this`rangePage, this`free
      ensures Valid() && free == old(free) - IdRun(pid, num) && IdRun(pid, num) <= old(free)
      ensures treeFreePage == Erase(old(treeFreePage), pid)
      ensures Indexes() == EraseBoth(old(Indexes()), pid, num)
    {
      hide IdRun, Covers, Apart;
      EraseApart(treeFreePage, free, pid);
      treeFreePage := Erase(treeFreePage, pid);
      rangePage := rangePage[num := rangePage[num] - {pid}];
      if rangePage[num] == {} {
        rangePage := rangePage - {num};
      }
      free := free - IdRun(pid, num);
    }

    /** The ranges that touch a run. */
    method Neighbours(pid: PageId, num: nat)
      returns (lmerge: bool, lid: PageId, lnum: nat, rmerge: bool, rid: PageId, rnum: nat)
      requires Valid() && num > 0 && IdRun(pid, num) !! free
      ensures Touching(treeFreePage, pid, num, lmerge, lid, lnum, rmerge, rid, rnum)
      ensures lnum <= UINT16_MAX && rnum <= UINT16_MAX
    {
      hide IdRun, Covers, Inverse;
      NotOverlapped(treeFreePage, free, pid, num);
      var rfound, lfound;
      rfound, rid := UpperBound(treeFreePage, pid);
      lfound, lid := LastBefore(treeFreePage, pid);
      rmerge := rfound && pid + num == rid;
      lmerge := lfound && lid + treeFreePage[lid] == pid;
      rnum := if rmerge then treeFreePage[rid] else 0;
      lnum := if lmerge then treeFreePage[lid] else 0;
      TouchingOk(treeFreePage, pid, num, lmerge, lid, lnum, rmerge, rid, rnum);
    }

    /** Takes back a run of pages and merges it with the ranges it touches, as RecyclePage is meant to.  What it does as
        written is RecyclePageWritten. */
    method RecyclePage(pid: PageId, num: nat) returns (ghost b: Near)
      requires Valid() && 0 < num <= UINT16_MAX && IdRun(pid, num) !! free
      modifies this
      ensures Valid() && free == old(free) + IdRun(pid, num)
      ensures old(Coalesced(treeFreePage)) ==> Coalesced(treeFreePage)
      ensures totalGarbagePages == (old(totalGarbagePages) + num) % UINT32_RANGE
      ensures Touching(old(treeFreePage), pid, num, b.lmerge, b.lid, b.lnum, b.rmerge, b.rid, b.rnum)
      ensures b.lnum <= UINT16_MAX && b.rnum <= UINT16_MAX
      ensures Indexes() == Recycled(old(Indexes()), pid, num, b.lmerge, b.lid, b.lnum, b.rmerge, b.rid, b.rnum, false)
    {
      hide IdRun, Covers, Inverse, Apart, Touching, Recycled;
      var lmerge, lid, lnum, rmerge, rid, rnum := Neighbours(pid, num);
      b := Near(lmerge, lid, lnum, rmerge, rid, rnum);
      totalGarbagePages := (totalGarbagePages + num) % UINT32_RANGE;
      MergeAndInsert(pid, num, lmerge, lid, lnum, rmerge, rid, rnum);
    }

    /** RecyclePage as written: the neighbours' sizes are signed 16-bit numbers, and the sum is kept in 16 bits.  By
        RecycledSameIff it leaves what it is meant to leave unless a touching range is too long. */
    method RecyclePageWritten(pid: PageId, num: nat) returns (ghost b: Near)
      requires Valid() && 0 < num <= UINT16_MAX && IdRun(pid, num) !! free
      modifies this
      ensures totalGarbagePages == (old(totalGarbagePages) + num) % UINT32_RANGE
      ensures Touching(old(treeFreePage), pid, num, b.lmerge, b.lid, b.lnum, b.rmerge, b.rid, b.rnum)
      ensures b.lnum <= UINT16_MAX && b.rnum <= UINT16_MAX
      ensures Indexes() == Recycled(old(Indexes()), pid, num, b.lmerge, b.lid, b.lnum, b.rmerge, b.rid, b.rnum, true)
    {
      hide IdRun, Covers, Inverse, Apart, Touching;
      var lmerge, lid, lnum, rmerge, rid, rnum := Neighbours(pid, num);
      b := Near(lmerge, lid, lnum, rmerge, rid, rnum);
      totalGarbagePages := (totalGarbagePages + num) % UINT32_RANGE;
      var f, id: PageId, n: nat := FreeIndex(treeFreePage, rangePage), pid, num;
      if lmerge && n + AsInt16(lnum) < UINT16_MAX {
        f, id, n := EraseBoth(f, lid, lnum), lid, (lnum + n) % 65536;
      }
      if rmerge && n + AsInt16(rnum) < UINT16_MAX {
        f, n := EraseBoth(f, rid, rnum), (n + rnum) % 65536;
      }
      f := InsertBoth(f, id, n);
      treeFreePage, rangePage := f.tree, f.ranges;
    }

    method EraseIf(drop: bool, s: PageId, num: nat)
      requires Valid() && (drop ==> s in treeFreePage && treeFreePage[s] == num)
      modifies this`treeFreePage, this`rangePage, this`free
      ensures Valid() && free == LessIf(old(free), drop, s, num)
      ensures treeFreePage == WithoutIf(old(treeFreePage), drop, s)
      ensures Indexes() == if drop then EraseBoth(old(Indexes()), s, num) else old(Indexes())
    {
      if drop {
        ErasePage(s, num);
      }
    }

    method MergeAndInsert(pid: PageId, num: nat, lmerge: bool, lid: PageId, lnum: nat, rmerge: bool, rid: PageId,
        rnum: nat)
      requires Valid() && 0 < num <= UINT16_MAX && IdRun(pid, num) !! free
      requires Touching(treeFreePage, pid, num, lmerge, lid, lnum, rmerge, rid, rnum)
      requires lnum <= UINT16_MAX && rnum <= UINT16_MAX
      modifies this`treeFreePage, this`rangePage, this`free
      ensures Valid() && free == old(free) + IdRun(pid, num)
      ensures old(Coalesced(treeFreePage)) ==> Coalesced(treeFreePage)
      ensures Indexes() == Recycled(old(Indexes()), pid, num, lmerge, lid, lnum, rmerge, rid, rnum, false)
    {
      hide Covers, Inverse, IdRun, Apart, Coalesced, Erase, LessIf, Recycled, InsertBoth, EraseBoth;
      ghost var f := Indexes();
      NotOverlapped(treeFreePage, free, pid, num);
      var lm := lmerge && num + lnum < UINT16_MAX;
      var n := if lm then lnum + num else num;
      var rm := rmerge && n + rnum < UINT16_MAX;
      var id, n' := if lm then lid else pid, if rm then n + rnum else n;
      if lm { EraseApart(treeFreePage, free, lid); }
      if rm { EraseApart(treeFreePage, free, rid); }
      MergedFree(free, pid, num, lm, lid, lnum, rm, rid, rnum, id, n');
      if Coalesced(treeFreePage) {
        SwallowCoalesced(treeFreePage, pid, num, lmerge, lid, lnum, rmerge, rid, rnum, lm, n, rm, id, n');
      }
      EraseIf(lm, lid, lnum);
      EraseIf(rm, rid, rnum);
      InsertPage(id, n');
      MergedAsMeant(f, pid, num, lmerge, lid, lnum, rmerge, rid, rnum, lm, n, rm, id, n');
    }

    /** Takes the front of the range at `id` and gives back the rest of it. */
    method TakeFrom(id: PageId, n: nat, num: nat)
      requires Valid() && num > 0 && id in treeFreePage && treeFreePage[id] == n >= num
      modifies this`treeFreePage, this`rangePage, this`free
      ensures Valid() && treeFreePage == Taken(old(treeFreePage), id, num)
      ensures free == old(free) - IdRun(id, num) && IdRun(id, num) <= old(free)
    {
      hide Covers, Apart, IdRun, Erase, Insert, Taken, Inverse;
      TakenIs(treeFreePage, id, n, num);
      SizeBound(treeFreePage, id);
      RestReturned(treeFreePage, free, id, n, num);
      ErasePage(id, n);
      if n > num {
        InsertPage(id + num, n - num);
      }
    }

    /** Takes the front of a smallest range that is large enough. */
    method TakeFirst(num: nat) returns (found: bool, id: PageId)
      requires Valid() && num > 0
      modifies this`treeFreePage, this`rangePage, this`free
      ensures Valid()
      ensures !found ==> unchanged(this) && forall s :: s in treeFreePage ==> treeFreePage[s] < num
      ensures found ==> && old(BestFit(treeFreePage, id, num))
                        && free == old(free) - IdRun(id, num) && IdRun(id, num) <= old(free)
                        && treeFreePage == Taken(old(treeFreePage), id, num)
    {
      hide Covers, Apart, IdRun, Taken;
      var n;
      found, n := FirstFit(rangePage, num);
      assert forall s :: s in treeFreePage ==> treeFreePage[s] in rangePage;
      if !found {
        return false, 0;
      }
      id :| id in rangePage[n];
      TakeFrom(id, n, num);
    }

    /** `lockFree` says whether a lock that was asked for could be taken. */
    method ApplyOvfPage(num: nat, lockFree: bool) returns (found: bool, id: PageId)
      requires Valid() && 0 < num <= UINT16_MAX
      modifies this
      ensures Valid()
      ensures !found ==> unchanged(this)
      ensures found ==> && old(BestFit(treeFreePage, id, num))
                        && free == old(free) - IdRun(id, num) && IdRun(id, num) <= old(free)
                        && treeFreePage == Taken(old(treeFreePage), id, num)
      ensures found <==> FindsRun(old(treeFreePage), old(totalGarbagePages), num, lockFree)
      ensures totalGarbagePages == old(totalGarbagePages) - if found then num else 0
      ensures old(Counted()) ==> Counted()
      ensures old(Counted()) && lockFree && !found ==> forall s :: s in treeFreePage ==> treeFreePage[s] < num
    {
      hide Apart, Covers, Inverse, IdRun, Taken;
      if totalGarbagePages < num {
        if Counted() { SmallRanges(treeFreePage, free, num); }
        return false, 0;
      }
      if !lockFree {
        return false, 0;
      }
      found, id := TakeFirst(num);
      if !found {
        return;
      }
      FitsHere(old(treeFreePage), id, num);
      totalGarbagePages := totalGarbagePages - num;
      CardLess(old(free), IdRun(id, num));
    }

    /** Takes all ids from one range or none.  The counter is lowered by `num` in both cases, in 32 bits,
        so it stays the number of free pages exactly when the ids were found. */
    method ApplyIndexPages(num: nat, lockFree: bool) returns (vct: seq<PageId>)
      requires Valid() && 0 < num <= UINT16_MAX && totalGarbagePages < UINT32_RANGE
      modifies this
      ensures Valid() && totalGarbagePages < UINT32_RANGE
      ensures vct == [] || |vct| == num
      // ids are found exactly when the counter and the lock allow the search and some range is long enough
      ensures vct != [] <==> FindsPages(old(treeFreePage), old(totalGarbagePages), num, lockFree)
      ensures Distinct(vct) && (forall k :: k in vct ==> k in old(free))
      ensures free == old(free) - Elems(vct)
      // they are the front of a smallest range that is long enough
      ensures if vct == [] then treeFreePage == old(treeFreePage)
              else
                && old(BestFit(treeFreePage, vct[0], num)) && treeFreePage == Taken(old(treeFreePage), vct[0], num)
                && forall j :: 0 <= j < num ==> vct[j] == vct[0] + j
      ensures totalGarbagePages == if old(totalGarbagePages) == 0 || !lockFree then old(totalGarbagePages)
                                   else (old(totalGarbagePages) + UINT32_RANGE - num) % UINT32_RANGE
      ensures old(Counted()) ==>
                (Counted() <==> FindsPages(old(treeFreePage), old(totalGarbagePages), num, lockFree)
                                || old(totalGarbagePages) == 0 || !lockFree)
    {
      hide Apart, Covers, Inverse, IdRun, Taken, BestFit, Elems, Distinct;
      vct := [];
      NoElems();
      if totalGarbagePages == 0 {
        return;
      }
      if !lockFree {
        return;
      }
      var i := 0;
      while i < num
        invariant Valid() && totalGarbagePages == old(totalGarbagePages)
        invariant i == |vct|
        invariant i == 0 ==> unchanged(this)
        invariant i > 0 ==> i == num && FindsPages(old(treeFreePage), old(totalGarbagePages), num, lockFree)
        invariant Distinct(vct) && (forall k :: k in vct ==> k in old(free))
        invariant free == old(free) - Elems(vct)
        invariant i > 0 ==>
                    && old(BestFit(treeFreePage, vct[0], num)) && vct[0] in old(treeFreePage)
                    && treeFreePage == Taken(old(treeFreePage), vct[0], num)
                    && forall j :: 0 <= j < num ==> vct[j] == vct[0] + j
        decreases num - i
      {
        var found, id := TakeFirst(num);
        if !found {
          break;
        }
        FitsHere(old(treeFreePage), id, num);
        ghost var run := IdRun(id, num);
        vct := seq(num, j requires 0 <= j < num => id + j);
        RunAsSeq(id, num, vct);
        i := num;
      }
      totalGarbagePages := (totalGarbagePages + UINT32_RANGE - num) % UINT32_RANGE;
      CardSeq(vct);
      CardLess(old(free), Elems(vct));
      WrapSub(old(totalGarbagePages), num);
    }
  }
}
