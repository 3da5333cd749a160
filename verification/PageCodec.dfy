/** The bytes of index pages and of the head page (src/core/LeafPage.cpp:49-168,
    src/core/BranchPage.cpp:27-105, src/core/HeadPage.cpp:48-87).

    An index page is a table of slots, the position of each record, followed by the records; a record
    begins with its length.  The last word is the checksum. */
module PageCodec {
  import opened KeyOrder
  import opened RowCodec

  const CRC32_INDEX_OFFSET: nat := 16384 - 4

  /** A record that carries its length in its first two bytes. */
  predicate Framed(r: seq<Byte>) {
    2 <= |r| < 0x1_0000 && LoadLE(r, 0, 2) == |r|
  }

  /** The bytes of the first k records. */
  function BodyLen(recs: seq<seq<Byte>>, k: nat): nat
    requires k <= |recs|
  {
    if k == 0 then 0 else BodyLen(recs, k - 1) + |recs[k - 1]|
  }

  lemma {:induction false} BodyGrows(recs: seq<seq<Byte>>, k: nat, m: nat)
    requires k <= m <= |recs|
    ensures BodyLen(recs, k) <= BodyLen(recs, m)
  {
    if k < m { BodyGrows(recs, k, m - 1); }
  }

  /** The length the page is charged with: every record and its slot. */
  function DataLength(recs: seq<seq<Byte>>): nat {
    2 * |recs| + BodyLen(recs, |recs|)
  }

  function SlotPos(begin: nat, k: nat): nat {
    begin + 2 * k
  }

  function BodyPos(begin: nat, recs: seq<seq<Byte>>, k: nat): nat
    requires k <= |recs|
  {
    begin + 2 * |recs| + BodyLen(recs, k)
  }

  /** Slots and records lie apart, in order, behind the header and in front of the checksum, exactly when the
      data length does not exceed what the page holds. */
  lemma Layout(begin: nat, recs: seq<seq<Byte>>, k: nat)
    requires k < |recs|
    ensures begin <= SlotPos(begin, k) && SlotPos(begin, k) + 2 <= BodyPos(begin, recs, 0) <= BodyPos(begin, recs, k)
    ensures k + 1 < |recs| ==> SlotPos(begin, k) + 2 == SlotPos(begin, k + 1)
    ensures BodyPos(begin, recs, k) + |recs[k]| == BodyPos(begin, recs, k + 1) <= BodyPos(begin, recs, |recs|)
    ensures BodyPos(begin, recs, |recs|) <= CRC32_INDEX_OFFSET <==> DataLength(recs) + begin <= CRC32_INDEX_OFFSET
  {
    BodyGrows(recs, 0, k);
    BodyGrows(recs, k + 1, |recs|);
  }

  /** Record k is in the page and its slot points at it. */
  ghost predicate RecordIn(s: seq<Byte>, begin: nat, recs: seq<seq<Byte>>, k: nat)
    requires k < |recs|
  {
    && SlotPos(begin, k) + 2 <= |s| && LoadLE(s, SlotPos(begin, k), 2) == BodyPos(begin, recs, k)
    && BodyPos(begin, recs, k) + |recs[k]| <= |s|
    && s[BodyPos(begin, recs, k)..BodyPos(begin, recs, k) + |recs[k]|] == recs[k]
  }

  lemma RecordKept(s: seq<Byte>, s': seq<Byte>, begin: nat, recs: seq<seq<Byte>>, k: nat, i: nat, a: nat, b: nat)
    requires k < i <= |recs| && RecordIn(s, begin, recs, k) && Outside(s, s', a, b)
    requires b <= begin || a >= BodyPos(begin, recs, i) || (a >= SlotPos(begin, i) && b <= BodyPos(begin, recs, 0))
    ensures RecordIn(s', begin, recs, k)
  {
    Layout(begin, recs, k);
    BodyGrows(recs, k + 1, i);
    LoadFrame(s, s', SlotPos(begin, k), 2);
    var p := BodyPos(begin, recs, k);
    assert s[p..p + |recs[k]|] == s'[p..p + |recs[k]|];
  }

  /** The loop of SaveRecords: slots and records. */
  method SaveRecords(page: array<Byte>, begin: nat, recs: seq<seq<Byte>>)
    requires page.Length == CRC32_INDEX_OFFSET + 4 && begin + DataLength(recs) <= CRC32_INDEX_OFFSET
    modifies page
    ensures forall k {:trigger RecordIn(page[..], begin, recs, k)} :: 0 <= k < |recs| ==>
        RecordIn(page[..], begin, recs, k)
    ensures Outside(old(page[..]), page[..], begin, begin + DataLength(recs))
  {
    hide RecordIn, LoadLE;
    var pos, off_pos := begin + |recs| * 2, begin;
    var i := 0;
    while i < |recs|
      invariant i <= |recs| && pos == BodyPos(begin, recs, i) && off_pos == SlotPos(begin, i)
      invariant Outside(old(page[..]), page[..], begin, begin + DataLength(recs))
      invariant forall k {:trigger RecordIn(page[..], begin, recs, k)} :: 0 <= k < i ==>
          RecordIn(page[..], begin, recs, k)
    {
      Layout(begin, recs, i);
      ghost var s0 := page[..];
      assert Pow256(2) == 0x1_0000;
      StoreLE(page, off_pos, 2, pos);
      ghost var s1 := page[..];
      CopyBytes(page, pos, recs[i]);
      OneSaved(s0, s1, page[..], begin, recs, i);
      pos := pos + |recs[i]|;
      off_pos := off_pos + 2;
      i := i + 1;
    }
  }

  lemma OneSaved(s0: seq<Byte>, s1: seq<Byte>, s2: seq<Byte>, begin: nat, recs: seq<seq<Byte>>, i: nat)
    requires i < |recs| && BodyPos(begin, recs, i) + |recs[i]| <= |s2|
    requires Outside(s0, s1, SlotPos(begin, i), SlotPos(begin, i) + 2) && SlotPos(begin, i) + 2 <= |s1|
    requires LoadLE(s1, SlotPos(begin, i), 2) == BodyPos(begin, recs, i)
    requires Outside(s1, s2, BodyPos(begin, recs, i), BodyPos(begin, recs, i) + |recs[i]|)
    requires s2[BodyPos(begin, recs, i)..BodyPos(begin, recs, i) + |recs[i]|] == recs[i]
    requires forall k {:trigger RecordIn(s0, begin, recs, k)} :: 0 <= k < i ==> RecordIn(s0, begin, recs, k)
    ensures forall k {:trigger RecordIn(s2, begin, recs, k)} :: 0 <= k <= i ==> RecordIn(s2, begin, recs, k)
  {
    Layout(begin, recs, i);
    forall k | 0 <= k <= i ensures RecordIn(s2, begin, recs, k) {
      if k < i {
        assert RecordIn(s0, begin, recs, k);
        RecordKept(s0, s1, begin, recs, k, i, SlotPos(begin, i), SlotPos(begin, i) + 2);
        RecordKept(s1, s2, begin, recs, k, i, BodyPos(begin, recs, i), BodyPos(begin, recs, i) + |recs[i]|);
      } else {
        LoadFrame(s1, s2, SlotPos(begin, i), 2);
      }
    }
  }

  /** LoadRecords: a record is where its slot points, as long as its first two bytes say. */
  method LoadRecords(s: seq<Byte>, begin: nat, recordNum: nat,
      ghost recs: seq<seq<Byte>>) returns (vctRecord: seq<seq<Byte>>)
    requires recordNum == |recs| && forall k :: 0 <= k < |recs| ==> Framed(recs[k])
    requires forall k {:trigger RecordIn(s, begin, recs, k)} :: 0 <= k < |recs| ==> RecordIn(s, begin, recs, k)
    ensures vctRecord == recs
  {
    hide LoadLE;
    vctRecord := [];
    var pos := begin;
    while |vctRecord| < recordNum
      invariant |vctRecord| <= recordNum && pos == SlotPos(begin, |vctRecord|) && vctRecord == recs[..|vctRecord|]
    {
      ghost var k := |vctRecord|;
      assert RecordIn(s, begin, recs, k);
      var at := LoadLE(s, pos, 2);
      LengthAt(s, at, recs[k]);
      vctRecord := vctRecord + [s[at..at + LoadLE(s, at, 2)]];
      pos := pos + 2;
    }
  }

  lemma LengthAt(s: seq<Byte>, at: nat, r: seq<Byte>)
    requires Framed(r) && at + |r| <= |s| && s[at..at + |r|] == r
    ensures at + 2 <= |s| && LoadLE(s, at, 2) == |r|
  {
    assert s[at] == r[0] && s[at + 1] == r[1];
    assert LoadLE(s, at, 2) == s[at] + 256 * LoadLE(s, at + 1, 1);
    assert LoadLE(r, 0, 2) == r[0] + 256 * LoadLE(r, 1, 1);
    assert LoadLE(s, at + 1, 1) == s[at + 1] + 256 * LoadLE(s, at + 2, 0);
    assert LoadLE(r, 1, 1) == r[1] + 256 * LoadLE(r, 2, 0);
  }

  /** A page that is saved and loaded again holds the same records in the same order. */
  method PageRoundTrip(begin: nat, recs: seq<seq<Byte>>) returns (back: seq<seq<Byte>>)
    requires begin + DataLength(recs) <= CRC32_INDEX_OFFSET && forall k :: 0 <= k < |recs| ==> Framed(recs[k])
    ensures back == recs
  {
    var page := new Byte[CRC32_INDEX_OFFSET + 4](_ => 0);
    SaveRecords(page, begin, recs);
    back := LoadRecords(page[..], begin, |recs|, recs);
  }

  // ---------- the head page ----------

  datatype Head = Head(indexType: nat, keyFields: nat, valueFields: nat, recordVerCount: nat, totalPageCount: nat,
      rootPageId: nat, beginLeafPageId: nat, endLeafPageId: nat,
                       totalRecordCount: nat, currRecordStamp: nat, autoIncrementKey: nat)

  predicate HeadOk(h: Head) {
    && h.recordVerCount < 256
    && h.totalPageCount < 0x1_0000_0000 && h.rootPageId < 0x1_0000_0000
    && h.beginLeafPageId < 0x1_0000_0000 && h.endLeafPageId < 0x1_0000_0000
    && h.totalRecordCount < Pow256(8) && h.currRecordStamp < Pow256(8) && h.autoIncrementKey < Pow256(8)
  }

  /** HeadPage::InitParameters.  The version count is one byte although four are read. */
  function ReadHead(s: seq<Byte>): Head
    requires |s| >= 128
  {
    Head(LoadLE(s, 1, 1), LoadLE(s, 8, 2), LoadLE(s, 10, 2), LoadLE(s, 2, 4) % 256, LoadLE(s, 28, 4),
        LoadLE(s, 32, 4), LoadLE(s, 36, 4), LoadLE(s, 40, 4),
         LoadLE(s, 48, 8), LoadLE(s, 64, 8), LoadLE(s, 56, 8))
  }

  lemma {:induction false} LowPart(s: seq<Byte>, pos: nat, w: nat, m: nat)
    requires pos + w + m <= |s| && LoadLE(s, pos, w + m) < Pow256(w)
    ensures LoadLE(s, pos, w) == LoadLE(s, pos, w + m)
    decreases w
  {
    if w > 0 {
      LowPart(s, pos + 1, w - 1, m);
    }
  }

  /** HeadPage::SaveToBuffer.  The four page numbers have slots of four bytes but are stored with eight, each
      over the slot of the next one, which is stored after it. */
  method SaveToBuffer(page: array<Byte>, h: Head)
    requires page.Length >= 128 && HeadOk(h) && SameKind(page[..], h)
    modifies page
    ensures ReadHead(page[..]) == h
    ensures page[..] == old(page[..2]) + page[2..3] + old(page[3..28]) + page[28..72] + old(page[72..])
  {
    hide LoadLE;
    assert Pow256(1) == 256 && Pow256(4) == 0x1_0000_0000 && Pow256(8) == 0x1_0000_0000_0000_0000;
    ghost var s0 := page[..];
    StoreLE(page, 2, 1, h.recordVerCount);
    ghost var s1 := page[..];
    StoreLE(page, 28, 8, h.totalPageCount);
    ghost var s2 := page[..];
    StoreLE(page, 32, 8, h.rootPageId);
    ghost var s3 := page[..];
    StoreLE(page, 36, 8, h.beginLeafPageId);
    ghost var s4 := page[..];
    StoreLE(page, 40, 8, h.endLeafPageId);
    ghost var s5 := page[..];
    StoreLE(page, 48, 8, h.totalRecordCount);
    ghost var s6 := page[..];
    StoreLE(page, 64, 8, h.currRecordStamp);
    ghost var s7 := page[..];
    StoreLE(page, 56, 8, h.autoIncrementKey);
    ghost var s := page[..];
    LowPart(s2, 28, 4, 4);
    LowPart(s3, 32, 4, 4);
    LowPart(s4, 36, 4, 4);
    LowPart(s5, 40, 4, 4);
    LoadFrame(s2, s, 28, 4);
    LoadFrame(s3, s, 32, 4);
    LoadFrame(s4, s, 36, 4);
    LoadFrame(s5, s, 40, 4);
    LoadFrame(s6, s, 48, 8);
    LoadFrame(s7, s, 64, 8);
    LoadFrame(s1, s, 2, 1);
    LowByte(s, 2);
    OtherBytesKept(s0, s1, s);
    LoadFrame(s0, s, 1, 1);
    LoadFrame(s0, s, 8, 2);
    LoadFrame(s0, s, 10, 2);
  }

  /** Index type and field counts are written when the index is created and stay in the page. */
  predicate SameKind(s: seq<Byte>, h: Head)
    requires |s| >= 128
  {
    LoadLE(s, 1, 1) == h.indexType && LoadLE(s, 8, 2) == h.keyFields && LoadLE(s, 10, 2) == h.valueFields
  }

  lemma OtherBytesKept(s0: seq<Byte>, s1: seq<Byte>, s: seq<Byte>)
    requires |s0| >= 128 && Outside(s0, s1, 2, 3) && Outside(s1, s, 28, 72)
    ensures s == s0[..2] + s[2..3] + s0[3..28] + s[28..72] + s0[72..]
  {
  }

  lemma LowByte(s: seq<Byte>, pos: nat)
    requires pos + 4 <= |s|
    ensures LoadLE(s, pos, 4) % 256 == LoadLE(s, pos, 1)
  {
    assert LoadLE(s, pos, 4) == s[pos] + 256 * LoadLE(s, pos + 1, 3);
    assert LoadLE(s, pos, 1) == s[pos] + 256 * LoadLE(s, pos + 1, 0);
  }
}
