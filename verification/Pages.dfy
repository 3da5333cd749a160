/** Records, pages and the key ranges they cover (src/core/IndexPage.h, src/core/LeafPage.h,
    src/core/BranchPage.h, src/core/BranchRecord.h).

    Pages are values held in a page table that is keyed by page id; the source's page pointers
    (`_parentPage`, `_nextPage`, `_childPage`) are the ids. */
module Pages {
  import opened KeyOrder
  import opened GreedySplit
  import opened PageIds

  datatype Option<+T> = None | Some(value: T)

  /** A leaf record: its place in the order; as its release leaves it, the bytes a split counts for it in the
      committed and the temporary length of its page, the length of a branch record made from it with and without
      the value part, whether it carries the delete flag, and whether it only waits to be dropped (a committed
      delete or a rolled back insert); what the page's committed and temporary length hold for it now; whether its
      newest statement has ended, so that it is due to be released; and whether release leaves it without bytes,
      because all its versions are rolled back (src/core/LeafRecord.cpp:563-597).  The key of a record without
      bytes only says where it stands. */
  datatype Rec = Rec(key: Key, clen: nat, tlen: nat, elen: nat, klen: nat, mark: bool, gone: bool,
                     comm: nat, temp: nat, due: bool, lost: bool)

  /** A branch record: separator, child page, length in the page, and length without the value part. */
  datatype Entry = Entry(sep: Key, child: PageId, len: nat, klen: nat)

  datatype Page =
    | Leaf(parent: Option<PageId>, recs: seq<Rec>, comm: int, temp: int,
           prev: Option<PageId>, next: Option<PageId>, end: bool)
    | Branch(parent: Option<PageId>, level: nat, entries: seq<Entry>, comm: int, end: bool)

  function Level(p: Page): nat {
    if p.Leaf? then 0 else p.level
  }

  /** The number of records in a page. */
  function Count(p: Page): nat {
    if p.Leaf? then |p.recs| else |p.entries|
  }

  // ---------- page geometry (src/core/LeafPage.cpp:13-16, BranchPage.cpp:7-10, IndexPage.cpp:8-10) ----------

  const PAGE_SIZE: nat := 16384
  const LOAD_FACTOR: nat := 90
  const LOAD_THRESHOLD: nat := PAGE_SIZE * 5
  const MAX_LEAF: nat := PAGE_SIZE - 20 - 4
  const MAX_BRANCH: nat := PAGE_SIZE - 12 - 4
  const LEAF_LIMITS := Limits(MAX_LEAF, MAX_LEAF * LOAD_FACTOR / 100)
  const BRANCH_LIMITS := Limits(MAX_BRANCH, MAX_BRANCH * LOAD_FACTOR / 100)

  /** Configure::GetMaxRecordLength (src/config/Configure.h:34). */
  const MAX_RECORD: nat := 8180

  /** The longest branch record with its slot.  It copies key and value of a leaf record: a record of a primary
      index has 17 bytes besides (two lengths, version count, stamp, value length; src/core/LeafRecord.cpp:141-158),
      the branch record 8 (two lengths, page id; src/core/BranchRecord.cpp:8-19).  Records with an overflow page
      are not part of this model. */
  const MAX_ENTRY: nat := MAX_RECORD - 17 + 8 + 2

  predicate EntryFit(e: Entry) {
    0 < e.klen <= e.len <= MAX_ENTRY
  }

  /** A record as a leaf of capacity m can hold it.  A dropped record counts nothing; one under an unfinished
      DELETE counts its slot in a split. */
  predicate RecFit(x: Rec, m: nat) {
    && x.tlen <= m && x.clen <= m && 0 < x.klen <= x.elen <= MAX_ENTRY
    && (x.gone ==> x.mark && x.clen == 0 && x.tlen == 0)
    && (!x.gone ==> 0 < x.tlen && (x.mark ==> x.tlen == 2))
    && (x.lost ==> x.gone)
    && (!x.due ==> x == AfterRelease(x))
  }

  /** The record after its release (LeafRecord::ReleaseLock), charged by LeafRecord::GetLength: a record with the
      delete flag is charged nothing in the temporary length. */
  function AfterRelease(x: Rec): Rec {
    x.(comm := x.clen, temp := if x.mark then 0 else x.tlen, due := false)
  }

  /** A record without key bytes: to compare it reads through a null pointer. */
  predicate NoBytes(x: Rec) {
    x.gone && x.lost && !x.due
  }

  function CLens(s: seq<Rec>): (r: seq<nat>)
    ensures |r| == |s|
  {
    seq(|s|, i requires 0 <= i < |s| => s[i].clen)
  }

  function TLens(s: seq<Rec>): (r: seq<nat>)
    ensures |r| == |s|
  {
    seq(|s|, i requires 0 <= i < |s| => s[i].tlen)
  }

  /** What the lengths of the page hold for the records. */
  function Comms(s: seq<Rec>): (r: seq<nat>)
    ensures |r| == |s|
  {
    seq(|s|, i requires 0 <= i < |s| => s[i].comm)
  }

  function Temps(s: seq<Rec>): (r: seq<nat>)
    ensures |r| == |s|
  {
    seq(|s|, i requires 0 <= i < |s| => s[i].temp)
  }

  function ELens(s: seq<Entry>): (r: seq<nat>)
    ensures |r| == |s|
  {
    seq(|s|, i requires 0 <= i < |s| => s[i].len)
  }

  // ---------- order within a page ----------

  predicate SortedRecs(s: seq<Rec>) {
    forall i, j :: 0 <= i < j < |s| ==> Lt(s[i].key, s[j].key)
  }

  predicate SortedEntries(s: seq<Entry>) {
    forall i, j :: 0 <= i < j < |s| ==> Lt(s[i].sep, s[j].sep)
  }

  /** The records that stay when all that are due are released. */
  function Live(s: seq<Rec>): (r: seq<Rec>)
    ensures forall x :: x in r ==> !x.gone && x == AfterRelease(x)
    ensures |r| <= |s|
  {
    if s == [] then []
    else if s[|s| - 1].gone then Live(s[..|s| - 1])
    else Live(s[..|s| - 1]) + [AfterRelease(s[|s| - 1])]
  }

  lemma {:induction false} LiveHas(s: seq<Rec>, x: Rec)
    ensures x in Live(s) <==> exists y :: y in s && !y.gone && x == AfterRelease(y)
  {
    if s != [] {
      var n := |s| - 1;
      LiveHas(s[..n], x);
      assert s == s[..n] + [s[n]];
      if y :| y in s && !y.gone && x == AfterRelease(y) { assert y in s[..n] || y == s[n]; }
      if y :| y in s[..n] && !y.gone && x == AfterRelease(y) { assert y in s; }
    }
  }

  lemma {:induction false} LiveConcat(a: seq<Rec>, b: seq<Rec>)
    ensures Live(a + b) == Live(a) + Live(b)
  {
    if b == [] {
      assert a + b == a;
    } else {
      var d, z := b[..|b| - 1], b[|b| - 1];
      LiveConcat(a, d);
      assert (a + b)[..|a + b| - 1] == a + d && (a + b)[|a + b| - 1] == z;
    }
  }

  lemma {:induction false} LiveAll(s: seq<Rec>)
    requires forall i :: 0 <= i < |s| ==> !s[i].gone && s[i] == AfterRelease(s[i])
    ensures Live(s) == s
  {
    if s != [] {
      LiveAll(s[..|s| - 1]);
      assert s == s[..|s| - 1] + [s[|s| - 1]];
    }
  }

  lemma LiveTwice(s: seq<Rec>)
    ensures Live(Live(s)) == Live(s)
  {
    var l := Live(s);
    forall i | 0 <= i < |l| ensures !l[i].gone && l[i] == AfterRelease(l[i]) { assert l[i] in l; }
    LiveAll(l);
  }

  lemma {:induction false} LiveSorted(s: seq<Rec>)
    requires SortedRecs(s)
    ensures SortedRecs(Live(s))
  {
    if s != [] {
      LiveSorted(s[..|s| - 1]);
      forall x | x in Live(s[..|s| - 1]) ensures Lt(x.key, s[|s| - 1].key) {
        LiveHas(s[..|s| - 1], x);
        var y :| y in s[..|s| - 1] && x == AfterRelease(y);
      }
    }
  }

  // ---------- key ranges ----------

  datatype Ext = NegInf | Fin(k: Key) | PosInf

  /** The keys above `lo` and up to and including `hi`. */
  datatype Range = Range(lo: Ext, hi: Ext)

  const ALL := Range(NegInf, PosInf)

  predicate Above(lo: Ext, k: Key) {
    lo.NegInf? || (lo.Fin? && Lt(lo.k, k))
  }

  predicate UpTo(k: Key, hi: Ext) {
    hi.PosInf? || (hi.Fin? && Le(k, hi.k))
  }

  predicate In(k: Key, r: Range) {
    Above(r.lo, k) && UpTo(k, r.hi)
  }

  predicate ExtLe(a: Ext, b: Ext) {
    a.NegInf? || b.PosInf? || (a.Fin? && b.Fin? && Le(a.k, b.k))
  }

  predicate ExtLt(a: Ext, b: Ext) {
    (a.NegInf? && !b.NegInf?) || (!a.PosInf? && b.PosInf?) || (a.Fin? && b.Fin? && Lt(a.k, b.k))
  }

  /** The range of the i-th child of a branch page that covers `r`: the last child takes everything above
      the separator before it. */
  function ChildRange(es: seq<Entry>, r: Range, i: nat): Range
    requires i < |es|
  {
    Range(if i == 0 then r.lo else Fin(es[i - 1].sep), if i == |es| - 1 then r.hi else Fin(es[i].sep))
  }

  // ---------- what a search looks for ----------

  /** A search compares whole records, or only keys. */
  datatype Probe = ByRecord(k: Key) | ByKey(kk: real)

  predicate Before(x: Key, p: Probe) {
    match p
    case ByRecord(k) => Lt(x, k)
    case ByKey(kk) => x.key < kk
  }

  /** The range a probe's first match falls into. */
  predicate Targets(p: Probe, r: Range) {
    && (r.lo.NegInf? || (r.lo.Fin? && Before(r.lo.k, p)))
    && (r.hi.PosInf? || (r.hi.Fin? && !Before(r.hi.k, p)))
  }

  /** Position i splits the page at the probe. */
  predicate IsLowerBound(s: seq<Rec>, p: Probe, i: nat) {
    && i <= |s|
    && (forall j :: 0 <= j < i ==> Before(s[j].key, p))
    && (forall j :: i <= j < |s| ==> !Before(s[j].key, p))
  }

  /** The probe splits the keys in order: what is below a key before the probe is before it too. */
  lemma BeforeMonotone(x: Key, y: Key, p: Probe)
    requires Le(x, y) && Before(y, p)
    ensures Before(x, p)
  {
  }

  lemma AfterMonotone(x: Key, y: Key, p: Probe)
    requires Le(x, y) && !Before(x, p)
    ensures !Before(y, p)
  {
  }

  function Seps(es: seq<Entry>): (r: seq<Key>)
    ensures |r| == |es|
  {
    seq(|es|, i requires 0 <= i < |es| => es[i].sep)
  }

  predicate SortedKeys(s: seq<Key>) {
    forall i, j :: 0 <= i < j < |s| ==> Lt(s[i], s[j])
  }

  /** The slot a search over right borders takes: the first border that is not before the probe, or the
      last slot. */
  predicate IsSlotFor(s: seq<Key>, p: Probe, i: nat) {
    && i < |s|
    && (forall j :: 0 <= j < i ==> Before(s[j], p))
    && (i < |s| - 1 ==> !Before(s[i], p))
  }
}
