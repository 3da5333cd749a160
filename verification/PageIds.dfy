/** Page ids and lists of them (src/core/IndexPage.h, src/core/GarbageOwner.h). */
module PageIds {
  type PageId = nat

  ghost predicate Distinct(s: seq<PageId>) {
    forall i, j :: 0 <= i < j < |s| ==> s[i] != s[j]
  }

  function Elems(s: seq<PageId>): (r: set<PageId>)
    ensures forall k :: k in r <==> k in s
  {
    set k | k in s
  }

  lemma NoElems()
    ensures Distinct([]) && Elems([]) == {}
  {
  }

  lemma DistinctConcat(a: seq<PageId>, b: seq<PageId>)
    requires Distinct(a) && Distinct(b) && Elems(a) !! Elems(b)
    ensures Distinct(a + b) && Elems(a + b) == Elems(a) + Elems(b)
  {
    forall i, j | 0 <= i < j < |a + b| ensures (a + b)[i] != (a + b)[j] {
      if i < |a| <= j {
        assert a[i] in Elems(a) && b[j - |a|] in Elems(b);
      }
    }
  }

  lemma {:induction false} CardSeq(s: seq<PageId>)
    requires Distinct(s)
    ensures |Elems(s)| == |s|
  {
    if s != [] {
      var n := |s| - 1;
      CardSeq(s[..n]);
      assert s[n] !in s[..n];
      assert Elems(s) == Elems(s[..n]) + {s[n]} by {
        assert s == s[..n] + [s[n]];
      }
    }
  }

  /** The ids of the run of `num` pages from `pid`. */
  function IdRun(pid: PageId, num: nat): (r: set<PageId>)
    ensures forall k :: k in r <==> pid <= k < pid + num
    ensures |r| == num
  {
    if num == 0 then {} else IdRun(pid, num - 1) + {pid + num - 1}
  }
}
