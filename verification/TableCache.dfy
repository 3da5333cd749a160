/** The table register with its 4-way cache (src/manager/TableManager.cpp:98-170 and 206-224). */
module TableCache {
  import opened Pages

  datatype Table = Table(id: nat, fullName: string)

  type Bucket = seq<Option<Table>>

  const WAYS: nat := 4

  /** The tables of a bucket are registered, belong there, and stand there once. */
  ghost predicate BucketOk(b: Bucket, m: map<string, Table>, hash: string -> nat, size: nat, k: nat)
    requires size > 0
  {
    && |b| == WAYS
    && (forall i :: 0 <= i < WAYS && b[i].Some? ==>
          var t := b[i].value; t.fullName in m && m[t.fullName] == t && hash(t.fullName) % size == k)
    && (forall i, j :: 0 <= i < j < WAYS && b[i].Some? ==> b[i] != b[j])
  }

  predicate Victim(b: Bucket, pos: nat, lastVisit: Table -> nat) {
    && pos < |b|
    && if b[pos].None? then forall j :: 0 <= j < pos ==> b[j].Some?
       else
         && (forall j :: 0 <= j < |b| ==> b[j].Some? && lastVisit(b[pos].value) <= lastVisit(b[j].value))
         && forall j :: 0 <= j < pos ==> lastVisit(b[pos].value) < lastVisit(b[j].value)
  }

  /** Only the table with this name has left the bucket. */
  ghost predicate Uncached(was: Bucket, now: Bucket, name: string) {
    forall t :: Some(t) in now <==> Some(t) in was && t.fullName != name
  }

  lemma Cleared(b: Bucket, i: nat)
    requires i < |b| && b[i].Some? && forall j :: 0 <= j < |b| && j != i ==> b[j] != b[i]
    ensures forall t :: Some(t) in b[i := None] <==> Some(t) in b && Some(t) != b[i]
  {
    forall t | Some(t) in b && Some(t) != b[i] ensures Some(t) in b[i := None] {
      var j :| 0 <= j < |b| && b[j] == Some(t);
      assert b[i := None][j] == Some(t);
    }
  }

  class TableManager {
    const hash: string -> nat
    const FAST_SIZE: nat
    var mapTable: map<string, Table>
    var fast: seq<Bucket>

    ghost predicate Valid()
      reads this
    {
      && FAST_SIZE > 0 && |fast| == FAST_SIZE
      && (forall name :: name in mapTable ==> mapTable[name].fullName == name)
      && (forall k {:trigger fast[k]} :: 0 <= k < FAST_SIZE ==> BucketOk(fast[k], mapTable, hash, FAST_SIZE, k))
    }

    function Slot(name: string): (k: nat)
      requires FAST_SIZE > 0
      ensures k < FAST_SIZE
    {
      hash(name) % FAST_SIZE
    }

    constructor (hash: string -> nat, size: nat)
      requires size > 0
      ensures Valid() && mapTable == map[]
    {
      this.hash, FAST_SIZE, mapTable := hash, size, map[];
      fast := seq(size, _ => [None, None, None, None]);
    }

    /** AddTable and AddFastTable: an empty place of the bucket, or that of the table visited least
        recently. */
    method AddTable(table: Table, lastVisit: Table -> nat) returns (b: bool)
      requires Valid()
      modifies this
      ensures Valid() && b == (table.fullName !in old(mapTable))
      ensures mapTable == if b then old(mapTable)[table.fullName := table] else old(mapTable)
      // the table is cached in an empty place, or instead of the one visited least recently
      ensures !b ==> fast == old(fast)
      ensures var k := Slot(table.fullName);
        b ==> exists pos: nat ::
                && Victim(old(fast)[k], pos, lastVisit)
                && fast == old(fast)[k := old(fast)[k][pos := Some(table)]]
    {
      if table.fullName in mapTable {
        return false;
      }
      var k := Slot(table.fullName);
      var arr := fast[k];
      var lvPos, i := 0, 0;
      while i < WAYS
        invariant 0 <= lvPos && i <= WAYS && lvPos < WAYS && (forall j :: 0 <= j < i ==> arr[j].Some?) && lvPos <= i &&
            (i > 0 ==> lvPos < i)
        invariant forall j :: 0 <= j < i ==> lastVisit(arr[lvPos].value) <= lastVisit(arr[j].value)
        invariant forall j :: 0 <= j < lvPos ==> lastVisit(arr[lvPos].value) < lastVisit(arr[j].value)
      {
        if arr[i].None? {
          lvPos := i;
          break;
        } else if lvPos < i && lastVisit(arr[lvPos].value) > lastVisit(arr[i].value) {
          lvPos := i;
        }
        i := i + 1;
      }
      NotCached(arr, mapTable, hash, FAST_SIZE, k, table);
      mapTable := mapTable[table.fullName := table];
      fast := fast[k := arr[lvPos := Some(table)]];
      assert Victim(arr, lvPos, lastVisit);
      b := true;
    }

    /** RemoveTable: clearing the first place that holds the table is enough. */
    method RemoveTable(tblFullName: string) returns (b: bool)
      requires Valid()
      modifies this
      ensures Valid() && b == (tblFullName in old(mapTable)) && mapTable == old(mapTable) - {tblFullName}
      ensures forall k :: 0 <= k < FAST_SIZE ==> Uncached(old(fast)[k], fast[k], tblFullName)
    {
      if tblFullName !in mapTable {
        forall k | 0 <= k < FAST_SIZE ensures Uncached(fast[k], fast[k], tblFullName) {
          assert BucketOk(fast[k], mapTable, hash, FAST_SIZE, k);
        }
        return false;
      }
      ghost var was, m := fast, mapTable;
      var tbl := mapTable[tblFullName];
      var k := Slot(tbl.fullName);
      var i := 0;
      while i < WAYS && fast[k][i] != Some(tbl)
        invariant i <= WAYS && forall j :: 0 <= j < i ==> fast[k][j] != Some(tbl)
      {
        i := i + 1;
      }
      if i < WAYS {
        fast := fast[k := fast[k][i := None]];
      }
      mapTable := mapTable - {tblFullName};
      b := true;
      forall n | 0 <= n < FAST_SIZE ensures Uncached(was[n], fast[n], tblFullName) {
        assert BucketOk(was[n], m, hash, FAST_SIZE, n);
        if n == k && i < WAYS {
          Cleared(was[n], i);
        }
      }
    }

    /** FindTable: the cache changes nothing in the answer. */
    method FindTable(tblFullName: string) returns (b: bool, tbl: Option<Table>)
      requires Valid()
      modifies this`fast
      ensures Valid() && b == (tblFullName in mapTable)
      ensures tbl == if b then Some(mapTable[tblFullName]) else None
      // a table that is found is cached if its bucket has a place left
      ensures var k := Slot(tblFullName); var was := old(fast)[k];
        if b && tbl !in was && None in was then
          exists pos ::
            && 0 <= pos < WAYS && was[pos].None? && None !in was[..pos] && fast == old(fast)[k := was[pos := tbl]]
        else fast == old(fast)
    {
      var k := Slot(tblFullName);
      var epos, i := -1, 0;
      while i < WAYS
        invariant i <= WAYS && -1 <= epos < WAYS && (epos >= 0 ==> fast[k][epos].None?)
        invariant forall j :: 0 <= j < i && fast[k][j].Some? ==> fast[k][j].value.fullName != tblFullName
        invariant forall j :: 0 <= j < (if epos < 0 then i else epos) ==> fast[k][j].Some?
      {
        if fast[k][i].Some? {
          if fast[k][i].value.fullName == tblFullName {
            return true, fast[k][i];
          }
        } else if epos < 0 {
          epos := i;
        }
        i := i + 1;
      }
      if tblFullName !in mapTable {
        return false, None;
      }
      tbl := Some(mapTable[tblFullName]);
      if epos >= 0 {
        assert fast[k][epos].None?;
        fast := fast[k := fast[k][epos := tbl]];
      }
      b := true;
    }
  }

  lemma NotCached(b: Bucket, m: map<string, Table>, hash: string -> nat, size: nat, k: nat, t: Table)
    requires size > 0 && BucketOk(b, m, hash, size, k) && t.fullName !in m
    ensures forall i :: 0 <= i < WAYS && b[i].Some? ==> b[i].value.fullName != t.fullName
  {
  }
}
