/** The binary searches inside a page and over a range vector (src/core/LeafPage.cpp:313-413,
    src/core/BranchPage.cpp:149-207, src/core/IndexTree.cpp:39-102 and 543-604). */
module Search {
  import opened KeyOrder
  import opened Pages

  /** A unique index compares keys only; its records carry no value rank. */
  predicate KeysOnly(unique: bool, s: seq<Rec>) {
    unique ==> forall i :: 0 <= i < |s| ==> s[i].key.val == 0.0
  }

  predicate SepsOnly(unique: bool, s: seq<Key>) {
    unique ==> forall i :: 0 <= i < |s| ==> s[i].val == 0.0
  }

  function CompareKey(a: Key, kk: real): int {
    if a.key < kk then -1 else if a.key > kk then 1 else 0
  }

  function CompareTo(a: Key, b: Key): int {
    if Lt(a, b) then -1 else if Lt(b, a) then 1 else 0
  }

  predicate Matches(x: Key, p: Probe) {
    match p
    case ByRecord(k) => x == k
    case ByKey(kk) => x.key == kk
  }

  predicate ProbeOk(unique: bool, p: Probe) {
    unique && p.ByRecord? ==> p.k.val == 0.0
  }

  // ---------- records without bytes ----------

  /** How many records come before the probe, and how many do not come after it. */
  function PlaceOf(s: seq<Rec>, p: Probe): (n: nat)
    ensures n <= |s|
  {
    if s == [] || !Before(s[0].key, p) then 0 else 1 + PlaceOf(s[1..], p)
  }

  function EndOf(s: seq<Rec>, p: Probe): (n: nat)
    ensures n <= |s|
  {
    if s == [] || !(Before(s[0].key, p) || Matches(s[0].key, p)) then 0 else 1 + EndOf(s[1..], p)
  }

  lemma {:induction false} PlaceIs(s: seq<Rec>, p: Probe)
    requires SortedRecs(s)
    ensures PlaceOf(s, p) <= EndOf(s, p)
    ensures forall j :: 0 <= j < |s| ==> (Before(s[j].key, p) <==> j < PlaceOf(s, p))
    ensures forall j :: 0 <= j < |s| ==> (Matches(s[j].key, p) <==> PlaceOf(s, p) <= j < EndOf(s, p))
  {
    if s != [] {
      PlaceIs(s[1..], p);
      forall j | 0 <= j < |s|
        ensures Before(s[j].key, p) <==> j < PlaceOf(s, p)
        ensures Matches(s[j].key, p) <==> PlaceOf(s, p) <= j < EndOf(s, p)
      {
        if j > 0 {
          assert s[1..][j - 1] == s[j] && Lt(s[0].key, s[j].key);
        }
      }
    }
  }

  /** A binary search over the positions from start to end compares the record at position i, when `lo` records come
      before the probe and those from lo up to hi match it.  A search for `one` match ends at the first it meets;
      any other one looks at the record before it as well. */
  predicate Compares(start: nat, end: int, lo: nat, hi: nat, one: bool, i: nat)
    decreases end + 1 - start
  {
    start <= end
    && var middle := (start + end) / 2;
      || i == middle
      || if middle < lo then Compares(middle + 1, end, lo, hi, one, i)
         else if middle >= hi then Compares(start, middle - 1, lo, hi, one, i)
         else
           && !one && middle > start
           && (i == middle - 1 || (middle - 1 >= lo && Compares(start, middle - 1, lo, hi, one, i)))
  }

  /** The search in a leaf reads through a null pointer: a record without bytes stands where it compares. */
  predicate HitsNull(unique: bool, s: seq<Rec>, p: Probe) {
    exists i :: 0 <= i < |s| && Visits(unique, s, p, i) && NoBytes(s[i])
  }

  predicate Visits(unique: bool, s: seq<Rec>, p: Probe, i: nat) {
    Compares(0, |s| - 1, PlaceOf(s, p), EndOf(s, p), unique || p.ByRecord?, i)
  }

  /** Every search compares the record at the probe's place, and, when nothing matches, the one before it. */
  lemma {:induction false} PlaceCompared(start: nat, end: int, lo: nat, hi: nat, one: bool, i: nat)
    requires start <= i <= end && lo <= hi && (one ==> hi <= lo + 1)
    requires i == lo || (i + 1 == lo && lo == hi)
    ensures Compares(start, end, lo, hi, one, i)
    decreases end + 1 - start
  {
    var middle := (start + end) / 2;
    if i == middle {
    } else if middle < lo {
      PlaceCompared(middle + 1, end, lo, hi, one, i);
    } else if middle >= hi {
      PlaceCompared(start, middle - 1, lo, hi, one, i);
    } else if middle - 1 >= lo {
      PlaceCompared(start, middle - 1, lo, hi, one, i);
    }
  }

  lemma OneMatch(unique: bool, s: seq<Rec>, p: Probe)
    requires SortedRecs(s) && KeysOnly(unique, s) && (unique || p.ByRecord?)
    ensures EndOf(s, p) <= PlaceOf(s, p) + 1
  {
    PlaceIs(s, p);
    var lo := PlaceOf(s, p);
    assert lo + 1 < EndOf(s, p) ==> Lt(s[lo].key, s[lo + 1].key);
  }

  /** So a search for a record without bytes, or for anything that belongs right behind one, reads through a null
      pointer. */
  lemma LostHitsNull(unique: bool, s: seq<Rec>, p: Probe, i: nat)
    requires SortedRecs(s) && KeysOnly(unique, s) && ProbeOk(unique, p) && i < |s| && NoBytes(s[i])
    requires i == PlaceOf(s, p) || (i + 1 == PlaceOf(s, p) && PlaceOf(s, p) == EndOf(s, p))
    ensures HitsNull(unique, s, p)
  {
    PlaceIs(s, p);
    if unique || p.ByRecord? { OneMatch(unique, s, p); }
    PlaceCompared(0, |s| - 1, PlaceOf(s, p), EndOf(s, p), unique || p.ByRecord?, i);
    assert Visits(unique, s, p, i);
  }

  /** The records without bytes that the search still visits are those it visits between start and end. */
  ghost predicate Ahead(unique: bool, s: seq<Rec>, p: Probe, start: nat, end: int) {
    forall i :: 0 <= i < |s| && NoBytes(s[i]) ==>
      (Visits(unique, s, p, i) <==> Compares(start, end, PlaceOf(s, p), EndOf(s, p), unique || p.ByRecord?, i))
  }

  lemma AheadOver(unique: bool, s: seq<Rec>, p: Probe, start: nat, end: int)
    requires Ahead(unique, s, p, start, end) && start > end
    ensures !HitsNull(unique, s, p)
  {
  }

  lemma AheadHit(unique: bool, s: seq<Rec>, p: Probe, start: nat, end: int)
    requires Ahead(unique, s, p, start, end) && start <= end < |s| && NoBytes(s[(start + end) / 2])
    ensures HitsNull(unique, s, p)
  {
    assert Visits(unique, s, p, (start + end) / 2);
  }

  /** The record in the middle has bytes: the search goes on to one side, or ends. */
  lemma AheadStep(unique: bool, s: seq<Rec>, p: Probe, start: nat, end: int)
    requires Ahead(unique, s, p, start, end) && start <= end < |s| && !NoBytes(s[(start + end) / 2])
    requires SortedRecs(s)
    ensures var middle := (start + end) / 2;
      && (Before(s[middle].key, p) ==> Ahead(unique, s, p, middle + 1, end))
      && (!Before(s[middle].key, p) && !Matches(s[middle].key, p) ==> Ahead(unique, s, p, start, middle - 1))
      && (Matches(s[middle].key, p) && (unique || p.ByRecord? || middle == start) ==> !HitsNull(unique, s, p))
  {
    PlaceIs(s, p);
  }

  /** A search that does not end at a match looks at the record before it. */
  lemma AheadBack(unique: bool, s: seq<Rec>, p: Probe, start: nat, end: int)
    requires Ahead(unique, s, p, start, end) && start <= end < |s| && !NoBytes(s[(start + end) / 2]) && SortedRecs(s)
    requires !unique && !p.ByRecord? && (start + end) / 2 > start && Matches(s[(start + end) / 2].key, p)
    ensures var i := (start + end) / 2 - 1;
      && (NoBytes(s[i]) ==> HitsNull(unique, s, p))
      && (!NoBytes(s[i]) && Matches(s[i].key, p) ==> Ahead(unique, s, p, start, i))
      && (!NoBytes(s[i]) && !Matches(s[i].key, p) ==> !HitsNull(unique, s, p))
  {
    PlaceIs(s, p);
    var i := (start + end) / 2 - 1;
    if NoBytes(s[i]) { assert Visits(unique, s, p, i); }
  }

  // ---------- the searches ----------

  /** LeafPage::SearchRecord: where the record is, or where it belongs. */
  method LeafSearchRecord(unique: bool, s: seq<Rec>, k: Key) returns (isNull: bool, pos: nat, bFind: bool)
    requires SortedRecs(s) && KeysOnly(unique, s) && (unique ==> k.val == 0.0)
    ensures isNull <==> HitsNull(unique, s, ByRecord(k))
    ensures !isNull ==> IsLowerBound(s, ByRecord(k), pos) && (bFind <==> pos < |s| && s[pos].key == k)
  {
    hide Ahead, HitsNull;
    var start, end := 0, |s| - 1;
    AheadStart(unique, s, ByRecord(k));
    while true
      invariant 0 <= start <= end + 1 <= |s|
      invariant forall j :: 0 <= j < start ==> Lt(s[j].key, k)
      invariant forall j :: end < j < |s| ==> Lt(k, s[j].key)
      invariant Ahead(unique, s, ByRecord(k), start, end)
      decreases end - start
    {
      if start > end {
        AheadOver(unique, s, ByRecord(k), start, end);
        return false, start, false;
      }
      var middle := (start + end) / 2;
      if NoBytes(s[middle]) {
        AheadHit(unique, s, ByRecord(k), start, end);
        return true, 0, false;
      }
      AheadStep(unique, s, ByRecord(k), start, end);
      var hr := if unique then CompareKey(s[middle].key, k.key) else CompareTo(s[middle].key, k);
      if hr < 0 {
        start := middle + 1;
      } else if hr > 0 {
        end := middle - 1;
      } else {
        return false, middle, true;
      }
    }
  }

  lemma AheadStart(unique: bool, s: seq<Rec>, p: Probe)
    ensures Ahead(unique, s, p, 0, |s| - 1)
  {
  }

  lemma KeyLowerBound(s: seq<Rec>, kk: real, pos: nat)
    requires SortedRecs(s) && pos <= |s|
    requires pos > 0 ==> s[pos - 1].key.key < kk
    requires pos < |s| ==> s[pos].key.key >= kk
    ensures IsLowerBound(s, ByKey(kk), pos)
  {
    forall j | 0 <= j < |s| ensures Before(s[j].key, ByKey(kk)) <==> j < pos {
      if j < pos - 1 { assert Lt(s[j].key, s[pos - 1].key); }
      if pos < j { assert Lt(s[pos].key, s[j].key); }
    }
  }

  lemma FirstWithKey(unique: bool, s: seq<Rec>, kk: real, pos: nat)
    requires SortedRecs(s) && KeysOnly(unique, s) && pos < |s| && s[pos].key.key == kk
    requires unique || pos == 0 || s[pos - 1].key.key != kk
    ensures IsLowerBound(s, ByKey(kk), pos)
  {
    if pos > 0 { assert Lt(s[pos - 1].key, s[pos].key); }
    KeyLowerBound(s, kk, pos);
  }

  /** LeafPage::SearchKey: the first record with the key, or where it belongs. */
  method LeafSearchKey(unique: bool, s: seq<Rec>, kk: real) returns (isNull: bool, pos: nat, bFind: bool)
    requires SortedRecs(s) && KeysOnly(unique, s)
    ensures isNull <==> HitsNull(unique, s, ByKey(kk))
    ensures !isNull ==> IsLowerBound(s, ByKey(kk), pos) && (bFind <==> pos < |s| && s[pos].key.key == kk)
  {
    hide SortedRecs, KeysOnly, IsLowerBound, Ahead, HitsNull, NoBytes;
    var start, end := 0, |s| - 1;
    AheadStart(unique, s, ByKey(kk));
    while true
      invariant 0 <= start <= end + 1 <= |s|
      invariant start > 0 ==> s[start - 1].key.key < kk
      invariant end + 1 < |s| ==> s[end + 1].key.key >= kk
      invariant end + 1 < |s| && s[end + 1].key.key == kk ==> start <= end && s[end].key.key == kk
      invariant Ahead(unique, s, ByKey(kk), start, end)
      decreases end - start
    {
      if start > end {
        AheadOver(unique, s, ByKey(kk), start, end);
        KeyLowerBound(s, kk, start);
        return false, start, false;
      }
      var middle := (start + end) / 2;
      if NoBytes(s[middle]) {
        AheadHit(unique, s, ByKey(kk), start, end);
        return true, 0, false;
      }
      AheadStep(unique, s, ByKey(kk), start, end);
      var hr := CompareKey(s[middle].key, kk);
      if hr < 0 {
        start := middle + 1;
      } else if hr > 0 {
        end := middle - 1;
      } else {
        if !unique && middle > start {
          AheadBack(unique, s, ByKey(kk), start, end);
          if NoBytes(s[middle - 1]) {
            return true, 0, false;
          }
          if CompareKey(s[middle - 1].key, kk) == 0 {
            end := middle - 1;
            continue;
          }
        }
        FirstWithKey(unique, s, kk, middle);
        return false, middle, true;
      }
    }
  }

  /** BranchPage::SearchRecord, IndexTree::CalcIndexRange(RawRecord) and IndexRange::GetTopPage(RawRecord):
      one loop over right borders that settles on the last slot when the record is above all of them. */
  method SlotForRecord(unique: bool, s: seq<Key>, k: Key) returns (i: nat)
    requires |s| > 0 && SortedKeys(s) && SepsOnly(unique, s) && (unique ==> k.val == 0.0)
    ensures IsSlotFor(s, ByRecord(k), i)
  {
    var start, end := 0, |s| - 1;
    while true
      invariant 0 <= start <= end + 1 <= |s|
      invariant forall j :: 0 <= j < start ==> Lt(s[j], k)
      invariant forall j :: end < j < |s| ==> Lt(k, s[j])
      decreases end - start
    {
      if start > end {
        if start >= |s| {
          start := |s| - 1;
        }
        return start;
      }
      var middle := (start + end) / 2;
      var hr := if unique then CompareKey(s[middle], k.key) else CompareTo(s[middle], k);
      if hr < 0 {
        start := middle + 1;
      } else if hr > 0 {
        end := middle - 1;
      } else {
        return middle;
      }
    }
  }

  lemma KeySlot(s: seq<Key>, kk: real, i: nat)
    requires SortedKeys(s) && |s| > 0 && i <= |s|
    requires i > 0 ==> s[i - 1].key < kk
    requires i < |s| ==> s[i].key >= kk
    ensures IsSlotFor(s, ByKey(kk), if i == |s| then |s| - 1 else i)
  {
    forall j | 0 <= j < i ensures Before(s[j], ByKey(kk)) {
      if j < i - 1 { assert Lt(s[j], s[i - 1]); }
    }
  }

  lemma FirstSlotWithKey(unique: bool, s: seq<Key>, kk: real, i: nat)
    requires SortedKeys(s) && SepsOnly(unique, s) && i < |s| && s[i].key == kk
    requires unique || i == 0 || s[i - 1].key != kk
    ensures IsSlotFor(s, ByKey(kk), i)
  {
    if i > 0 { assert Lt(s[i - 1], s[i]); }
    KeySlot(s, kk, i);
  }

  /** BranchPage::SearchKey, IndexTree::CalcIndexRange(RawKey) and IndexRange::GetTopPage(RawKey). */
  method SlotForKey(unique: bool, s: seq<Key>, kk: real) returns (i: nat)
    requires |s| > 0 && SortedKeys(s) && SepsOnly(unique, s)
    ensures IsSlotFor(s, ByKey(kk), i)
  {
    hide SortedKeys, SepsOnly, IsSlotFor;
    var start, end := 0, |s| - 1;
    while true
      invariant 0 <= start <= end + 1 <= |s|
      invariant start > 0 ==> s[start - 1].key < kk
      invariant end + 1 < |s| ==> s[end + 1].key >= kk
      invariant end + 1 < |s| && s[end + 1].key == kk ==> start <= end && s[end].key == kk
      decreases end - start
    {
      if start > end {
        KeySlot(s, kk, start);
        if start >= |s| {
          start := |s| - 1;
        }
        return start;
      }
      var middle := (start + end) / 2;
      var hr := CompareKey(s[middle], kk);
      if hr < 0 {
        start := middle + 1;
      } else if hr > 0 {
        end := middle - 1;
      } else if !unique && middle > start && CompareKey(s[middle - 1], kk) == 0 {
        end := middle - 1;
      } else {
        FirstSlotWithKey(unique, s, kk, middle);
        return middle;
      }
    }
  }

  /** Either search over right borders. */
  method SlotFor(unique: bool, s: seq<Key>, p: Probe) returns (i: nat)
    requires |s| > 0 && SortedKeys(s) && SepsOnly(unique, s) && ProbeOk(unique, p)
    ensures IsSlotFor(s, p, i)
  {
    match p
    case ByRecord(k) => i := SlotForRecord(unique, s, k);
    case ByKey(kk) => i := SlotForKey(unique, s, kk);
  }

  /** Either search in a leaf page. */
  method LeafPosition(unique: bool, s: seq<Rec>, p: Probe) returns (isNull: bool, pos: nat, bFind: bool)
    requires SortedRecs(s) && KeysOnly(unique, s) && ProbeOk(unique, p)
    ensures isNull <==> HitsNull(unique, s, p)
    ensures !isNull ==> IsLowerBound(s, p, pos) && (bFind <==> pos < |s| && Matches(s[pos].key, p))
  {
    match p
    case ByRecord(k) => isNull, pos, bFind := LeafSearchRecord(unique, s, k);
    case ByKey(kk) => isNull, pos, bFind := LeafSearchKey(unique, s, kk);
  }
}
