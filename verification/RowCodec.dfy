/** The bytes of a primary-key record (src/core/LeafRecord.cpp:13-70, 386-434 and 458-517).

    After the key come a flag byte, the stamp and the length of the value; the value is a null bitmap, the
    lengths of the columns of variable length, and the column contents.  A cell is its persisted bytes, or
    nothing for NULL. */
module RowCodec {
  import opened KeyOrder
  import opened Pages

  datatype Column = Fixed(width: nat) | Variable(maxLen: nat)

  type Cell = Option<seq<Byte>>

  predicate CellFits(c: Column, v: Cell) {
    v.Some? ==>
      match c
      case Fixed(w) => |v.value| == w
      case Variable(m) => |v.value| <= m < 0x1_0000_0000
  }

  predicate RowFits(cols: seq<Column>, vals: seq<Cell>) {
    |cols| == |vals| && forall i :: 0 <= i < |cols| ==> CellFits(cols[i], vals[i])
  }

  // ---------- numbers in a buffer ----------

  /** The little-endian number of `w` bytes at `pos`. */
  function LoadLE(s: seq<Byte>, pos: nat, w: nat): (v: nat)
    requires pos + w <= |s|
    ensures v < Pow256(w)
    decreases w
  {
    if w == 0 then 0 else s[pos] + 256 * LoadLE(s, pos + 1, w - 1)
  }

  lemma {:induction false} LoadFrame(s: seq<Byte>, s': seq<Byte>, pos: nat, w: nat)
    requires pos + w <= |s| == |s'| && forall i :: pos <= i < pos + w ==> s[i] == s'[i]
    ensures LoadLE(s, pos, w) == LoadLE(s', pos, w)
    decreases w
  {
    if w > 0 { LoadFrame(s, s', pos + 1, w - 1); }
  }

  /** Only the bytes from a up to b differ. */
  predicate Outside(s: seq<Byte>, s': seq<Byte>, a: nat, b: nat) {
    |s| == |s'| && forall i :: 0 <= i < |s| && !(a <= i < b) ==> s'[i] == s[i]
  }

  method StoreLE(buf: array<Byte>, pos: nat, w: nat, v: nat)
    requires pos + w <= buf.Length && v < Pow256(w)
    modifies buf
    ensures Outside(old(buf[..]), buf[..], pos, pos + w) && LoadLE(buf[..], pos, w) == v
    decreases w
  {
    if w > 0 {
      buf[pos] := v % 256;
      ghost var s := buf[..];
      StoreLE(buf, pos + 1, w - 1, v / 256);
      assert buf[..][pos] == s[pos];
    }
  }

  // ---------- the null bitmap ----------

  function Pow2(k: nat): (p: nat)
    ensures p > 0
  {
    if k == 0 then 1 else 2 * Pow2(k - 1)
  }

  /** `b & (1 << k)`. */
  predicate Bit(b: nat, k: nat) {
    if k == 0 then b % 2 == 1 else Bit(b / 2, k - 1)
  }

  /** `b |= 1 << k`. */
  function SetBit(b: nat, k: nat): nat {
    if k == 0 then b / 2 * 2 + 1 else SetBit(b / 2, k - 1) * 2 + b % 2
  }

  lemma {:induction false} BitsAfter(b: nat, k: nat, j: nat)
    ensures Bit(SetBit(b, k), j) <==> j == k || Bit(b, j)
  {
    var r := SetBit(b, k);
    if k == 0 {
      assert r / 2 == b / 2;
    } else {
      assert r / 2 == SetBit(b / 2, k - 1) && r % 2 == b % 2;
      if j > 0 { BitsAfter(b / 2, k - 1, j - 1); }
    }
  }

  /** Setting a bit of a byte gives a byte, and adds the bit's weight if it was not set. */
  lemma {:induction false} SetBitAdds(b: nat, k: nat, n: nat)
    requires k < n && b < Pow2(n)
    ensures SetBit(b, k) < Pow2(n)
    ensures SetBit(b, k) == if Bit(b, k) then b else b + Pow2(k)
  {
    if k > 0 { SetBitAdds(b / 2, k - 1, n - 1); }
  }

  lemma {:induction false} NoBits(k: nat)
    ensures !Bit(0, k)
  {
    if k > 0 { NoBits(k - 1); }
  }

  // ---------- the layout of a value ----------

  function Len(v: Cell): nat {
    if v.None? then 0 else |v.value|
  }

  /** The columns of variable length among the first k. */
  function Vars(cols: seq<Column>, k: nat): nat
    requires k <= |cols|
  {
    if k == 0 then 0 else Vars(cols, k - 1) + if cols[k - 1].Variable? then 1 else 0
  }

  /** The bytes of the first k cells. */
  function Bytes(vals: seq<Cell>, k: nat): nat
    requires k <= |vals|
  {
    if k == 0 then 0 else Bytes(vals, k - 1) + Len(vals[k - 1])
  }

  lemma {:induction false} VarsGrow(cols: seq<Column>, k: nat, m: nat)
    requires k <= m <= |cols|
    ensures Vars(cols, k) <= Vars(cols, m)
  {
    if k < m { VarsGrow(cols, k, m - 1); }
  }

  lemma {:induction false} BytesGrow(vals: seq<Cell>, k: nat, m: nat)
    requires k <= m <= |vals|
    ensures Bytes(vals, k) <= Bytes(vals, m)
  {
    if k < m { BytesGrow(vals, k, m - 1); }
  }

  function NullBytes(n: nat): nat {
    (n + 7) / 8
  }

  function LenPos(base: nat, cols: seq<Column>, k: nat): nat
    requires k <= |cols|
  {
    base + NullBytes(|cols|) + 4 * Vars(cols, k)
  }

  function CellPos(base: nat, cols: seq<Column>, vals: seq<Cell>, k: nat): nat
    requires k <= |vals|
  {
    LenPos(base, cols, |cols|) + Bytes(vals, k)
  }

  function ValueLength(cols: seq<Column>, vals: seq<Cell>): nat {
    NullBytes(|cols|) + 4 * Vars(cols, |cols|) + Bytes(vals, |vals|)
  }

  /** The null bits say of the first i cells which ones are NULL, and nothing of the others. */
  ghost predicate NullsTo(s: seq<Byte>, base: nat, vals: seq<Cell>, i: nat) {
    forall k {:trigger vals[k]} :: 0 <= k < |vals| ==>
      base + k / 8 < |s| && (Bit(s[base + k / 8], k % 8) <==> k < i && vals[k].None?)
  }

  /** Cell k is in the buffer: its length if that varies, and its bytes. */
  ghost predicate CellIn(s: seq<Byte>, base: nat, cols: seq<Column>, vals: seq<Cell>, k: nat)
    requires |cols| == |vals| && k < |cols|
  {
    && (cols[k].Variable? ==> LenPos(base, cols, k) + 4 <= |s| && LoadLE(s, LenPos(base, cols, k), 4) == Len(vals[k]))
    && CellPos(base, cols, vals, k) + Len(vals[k]) <= |s|
    && (vals[k].Some? ==> s[CellPos(base, cols, vals, k)..CellPos(base, cols, vals, k) + Len(vals[k])] == vals[k].value)
  }

  /** Where the parts of cell k lie. */
  lemma Inside(base: nat, cols: seq<Column>, vals: seq<Cell>, k: nat)
    requires |cols| == |vals| && k < |cols|
    ensures k / 8 < NullBytes(|cols|)
    ensures cols[k].Variable? ==> LenPos(base, cols, k) + 4 <= CellPos(base, cols, vals, 0)
    ensures CellPos(base, cols, vals, 0) <= CellPos(base, cols, vals, k)
    ensures CellPos(base, cols, vals, k) + Len(vals[k]) <= base + ValueLength(cols, vals)
  {
    VarsGrow(cols, k + 1, |cols|);
    BytesGrow(vals, 0, k);
    BytesGrow(vals, k + 1, |vals|);
  }

  /** LeafRecord::CalcValueLength. */
  method CalcValueLength(cols: seq<Column>, vals: seq<Cell>, valVarLen: nat, isDelete: bool) returns (lenVal: nat)
    requires |cols| == |vals| && valVarLen == 4 * Vars(cols, |cols|)
    ensures lenVal == if isDelete then 0 else ValueLength(cols, vals)
  {
    if isDelete {
      return 0;
    }
    lenVal := (|vals| + 7) / 8 + valVarLen;
    var i := 0;
    while i < |vals|
      invariant i <= |vals| && lenVal == NullBytes(|cols|) + valVarLen + Bytes(vals, i)
    {
      lenVal := lenVal + Len(vals[i]);
      i := i + 1;
    }
  }

  /** The value of the row is in the buffer. */
  ghost predicate ValueIn(s: seq<Byte>, base: nat, cols: seq<Column>, vals: seq<Cell>)
    requires |cols| == |vals|
  {
    && base + ValueLength(cols, vals) <= |s|
    && NullsTo(s, base, vals, |vals|)
    && forall k {:trigger CellIn(s, base, cols, vals, k)} :: 0 <= k < |cols| ==> CellIn(s, base, cols, vals, k)
  }

  // ---------- writing ----------

  /** A write in front of the lengths, behind the cells before i, or between the lengths before i and the
      cells leaves the cells before i alone. */
  lemma CellKept(s: seq<Byte>, s': seq<Byte>, base: nat, cols: seq<Column>, vals: seq<Cell>, k: nat, i: nat, a: nat,
      b: nat)
    requires |cols| == |vals| && k < i < |cols| && CellIn(s, base, cols, vals, k) && Outside(s, s', a, b)
    requires b <= LenPos(base, cols, 0) || a >= CellPos(base, cols, vals, i)
             || (LenPos(base, cols, i) <= a && b <= CellPos(base, cols, vals, 0))
    ensures CellIn(s', base, cols, vals, k)
  {
    Inside(base, cols, vals, k);
    VarsGrow(cols, 0, k);
    VarsGrow(cols, k + 1, i);
    BytesGrow(vals, k + 1, i);
    if cols[k].Variable? {
      LoadFrame(s, s', LenPos(base, cols, k), 4);
    }
    if vals[k].Some? {
      var p := CellPos(base, cols, vals, k);
      assert s[p..p + Len(vals[k])] == s'[p..p + Len(vals[k])];
    }
  }

  lemma NullsKept(s: seq<Byte>, s': seq<Byte>, base: nat, vals: seq<Cell>, i: nat, a: nat, b: nat)
    requires NullsTo(s, base, vals, i) && Outside(s, s', a, b) && a >= base + NullBytes(|vals|)
    ensures NullsTo(s', base, vals, i)
  {
    forall k | 0 <= k < |vals|
      ensures base + k / 8 < |s'| && (Bit(s'[base + k / 8], k % 8) <==> k < i && vals[k].None?)
    {
      assert k / 8 < NullBytes(|vals|);
      assert vals[k] == vals[k];
    }
  }

  lemma NullsStep(s: seq<Byte>, s': seq<Byte>, base: nat, vals: seq<Cell>, i: nat)
    requires NullsTo(s, base, vals, i) && i < |vals| && base + i / 8 < |s| == |s'|
    requires forall p :: 0 <= p < |s| && p != base + i / 8 ==> s'[p] == s[p]
    requires s'[base + i / 8] == if vals[i].None? then SetBit(s[base + i / 8], i % 8) else s[base + i / 8]
    ensures NullsTo(s', base, vals, i + 1)
  {
    forall k | 0 <= k < |vals|
      ensures base + k / 8 < |s'| && (Bit(s'[base + k / 8], k % 8) <==> k < i + 1 && vals[k].None?)
    {
      assert vals[k] == vals[k];
      if k / 8 == i / 8 {
        BitsAfter(s[base + i / 8], i % 8, k % 8);
        assert k % 8 == i % 8 ==> k == i;
      }
    }
  }

  method CopyBytes(buf: array<Byte>, pos: nat, src: seq<Byte>)
    requires pos + |src| <= buf.Length
    modifies buf
    ensures Outside(old(buf[..]), buf[..], pos, pos + |src|) && buf[pos..pos + |src|] == src
  {
    var i := 0;
    while i < |src|
      invariant i <= |src| && Outside(old(buf[..]), buf[..], pos, pos + |src|)
      invariant forall k :: 0 <= k < i ==> buf[pos + k] == src[k]
    {
      buf[pos + i] := src[i];
      i := i + 1;
    }
  }

  /** IDataValue::WriteData for one cell, and its null bit and length. */
  method FillCell(buf: array<Byte>, base: nat, cols: seq<Column>, vals: seq<Cell>, i: nat)
    requires RowFits(cols, vals) && i < |cols| && base + ValueLength(cols, vals) <= buf.Length
    requires NullsTo(buf[..], base, vals, i)
    requires forall k {:trigger CellIn(buf[..], base, cols, vals, k)} :: 0 <= k < i ==>
        CellIn(buf[..], base, cols, vals, k)
    modifies buf
    ensures Outside(old(buf[..]), buf[..], base, base + ValueLength(cols, vals))
    ensures NullsTo(buf[..], base, vals, i + 1)
    ensures forall k {:trigger CellIn(buf[..], base, cols, vals, k)} :: 0 <= k <= i ==>
        CellIn(buf[..], base, cols, vals, k)
  {
    hide NullsTo, CellIn, Bit, SetBit, LoadLE, NullBytes, Vars, Bytes;
    Inside(base, cols, vals, i);
    NullRoom(base, cols, vals, i);
    ghost var s0 := buf[..];
    if vals[i].None? {
      SetBitAdds(buf[base + i / 8], i % 8, 8);
      assert Pow2(8) == 256;
      buf[base + i / 8] := SetBit(buf[base + i / 8], i % 8);
    }
    ghost var s1 := buf[..];
    NullsStep(s0, s1, base, vals, i);
    var vl := Len(vals[i]);
    if vals[i].Some? {
      CopyBytes(buf, CellPos(base, cols, vals, i), vals[i].value);
    }
    ghost var s2 := buf[..];
    if cols[i].Variable? {
      assert Pow256(4) == 0x1_0000_0000;
      StoreLE(buf, LenPos(base, cols, i), 4, vl);
    }
    Filled(s0, s1, s2, buf[..], base, cols, vals, i);
  }

  lemma NullRoom(base: nat, cols: seq<Column>, vals: seq<Cell>, i: nat)
    requires |cols| == |vals| && i < |cols|
    ensures base + i / 8 < LenPos(base, cols, 0) <= LenPos(base, cols, i)
    ensures LenPos(base, cols, 0) == base + NullBytes(|vals|)
    ensures LenPos(base, cols, i) <= CellPos(base, cols, vals, 0)
  {
    VarsGrow(cols, i, |cols|);
  }

  lemma Filled(s0: seq<Byte>, s1: seq<Byte>, s2: seq<Byte>, s3: seq<Byte>, base: nat, cols: seq<Column>,
      vals: seq<Cell>, i: nat)
    requires RowFits(cols, vals) && i < |cols| && base + ValueLength(cols, vals) <= |s0|
    requires forall k {:trigger CellIn(s0, base, cols, vals, k)} :: 0 <= k < i ==> CellIn(s0, base, cols, vals, k)
    requires Outside(s0, s1, base + i / 8, base + i / 8 + 1) && NullsTo(s1, base, vals, i + 1)
    requires var p := CellPos(base, cols, vals, i);
      if vals[i].Some? then Outside(s1, s2, p, p + Len(vals[i])) && p + Len(vals[i]) <= |s2| &&
          s2[p..p + Len(vals[i])] == vals[i].value else s2 == s1
    requires var p := LenPos(base, cols, i);
      if cols[i].Variable? then Outside(s2, s3, p, p + 4) && p + 4 <= |s3| &&
          LoadLE(s3, p, 4) == Len(vals[i]) else s3 == s2
    ensures NullsTo(s3, base, vals, i + 1)
    ensures forall k {:trigger CellIn(s3, base, cols, vals, k)} :: 0 <= k <= i ==> CellIn(s3, base, cols, vals, k)
  {
    hide NullsTo, LoadLE, NullBytes, Vars, Bytes;
    NullRoom(base, cols, vals, i);
    Inside(base, cols, vals, i);
    var p, q := CellPos(base, cols, vals, i), LenPos(base, cols, i);
    NullsKept(s1, s2, base, vals, i + 1, p, p + Len(vals[i]));
    NullsKept(s2, s3, base, vals, i + 1, q, q + 4);
    forall k | 0 <= k < i ensures CellIn(s3, base, cols, vals, k) {
      assert CellIn(s0, base, cols, vals, k);
      CellKept(s0, s1, base, cols, vals, k, i, base + i / 8, base + i / 8 + 1);
      CellKept(s1, s2, base, cols, vals, k, i, p, p + Len(vals[i]));
      if cols[i].Variable? { CellKept(s2, s3, base, cols, vals, k, i, q, q + 4); }
    }
    if vals[i].Some? {
      assert s3[p..p + Len(vals[i])] == s2[p..p + Len(vals[i])];
    }
  }

  /** LeafRecord::FillValueBuff. */
  method FillValueBuff(buf: array<Byte>, base: nat, cols: seq<Column>, vals: seq<Cell>)
    requires RowFits(cols, vals) && base + ValueLength(cols, vals) <= buf.Length
    modifies buf
    ensures ValueIn(buf[..], base, cols, vals)
    ensures Outside(old(buf[..]), buf[..], base, base + ValueLength(cols, vals))
  {
    hide NullsTo, CellIn;
    var i := 0;
    while i < NullBytes(|cols|)
      invariant i <= NullBytes(|cols|) && Outside(old(buf[..]), buf[..], base, base + ValueLength(cols, vals))
      invariant forall p :: base <= p < base + i ==> buf[p] == 0
    {
      buf[base + i] := 0;
      i := i + 1;
    }
    NoNulls(buf[..], base, vals);
    i := 0;
    while i < |cols|
      invariant i <= |cols| && Outside(old(buf[..]), buf[..], base, base + ValueLength(cols, vals))
      invariant NullsTo(buf[..], base, vals, i)
      invariant forall k {:trigger CellIn(buf[..], base, cols, vals, k)} :: 0 <= k < i ==>
          CellIn(buf[..], base, cols, vals, k)
    {
      FillCell(buf, base, cols, vals, i);
      i := i + 1;
    }
  }

  lemma NoNulls(s: seq<Byte>, base: nat, vals: seq<Cell>)
    requires base + NullBytes(|vals|) <= |s| && forall p :: base <= p < base + NullBytes(|vals|) ==> s[p] == 0
    ensures NullsTo(s, base, vals, 0)
  {
    forall k | 0 <= k < |vals| ensures base + k / 8 < |s| && !Bit(s[base + k / 8], k % 8) {
      assert k / 8 < NullBytes(|vals|);
      NoBits(k % 8);
    }
  }

  // ---------- reading ----------

  /** What a reader sees of a cell: a column object that holds NULL, filled only if there are bytes. */
  function ColumnsSeen(v: Cell): Cell {
    if v == Some([]) then None else v
  }

  /** The bytes of cell i, found from the bitmap, the length table and where the cell before it ended. */
  method ReadCell(s: seq<Byte>, base: nat, cols: seq<Column>, ghost vals: seq<Cell>, i: nat, lenPos: nat, bys: nat)
    returns (dv: Cell, flen: nat)
    requires RowFits(cols, vals) && ValueIn(s, base, cols, vals) && i < |cols|
    requires lenPos == LenPos(base, cols, i) && bys == CellPos(base, cols, vals, i)
    ensures dv == ColumnsSeen(vals[i]) && flen == Len(vals[i])
  {
    hide LoadLE, Bit, NullBytes, Vars, Bytes;
    assert CellIn(s, base, cols, vals, i);
    assert vals[i] == vals[i];
    Inside(base, cols, vals, i);
    if cols[i].Variable? {
      flen := LoadLE(s, lenPos, 4);
    } else {
      flen := cols[i].width;
    }
    if Bit(s[base + i / 8], i % 8) {
      flen := 0;
    }
    dv := None;
    if flen > 0 {
      dv := Some(s[bys..bys + flen]);
    }
  }

  const UINT32_MAX: nat := 0xFFFF_FFFF

  /** The column loop of LeafRecord::ReadListValue.  `mapPos` sends column numbers to places in the result, and
      UINT32_MAX to the place of the record stamp; when it is empty all columns are read in order. */
  method ReadListValue(s: seq<Byte>, base: nat, cols: seq<Column>, ghost vals: seq<Cell>, mapPos: map<nat, nat>,
      stamp: seq<Byte>)
    returns (vctVal: seq<Cell>)
    requires RowFits(cols, vals) && ValueIn(s, base, cols, vals) && |cols| <= UINT32_MAX
    requires forall i :: i in mapPos ==> (i < |cols| || i == UINT32_MAX) && mapPos[i] < |mapPos|
    requires forall i, j :: i in mapPos && j in mapPos && mapPos[i] == mapPos[j] ==> i == j
    ensures mapPos == map[] ==> |vctVal| == |cols| && forall i :: 0 <= i < |cols| ==> vctVal[i] == ColumnsSeen(vals[i])
    ensures mapPos != map[] ==> |vctVal| == |mapPos|
    ensures forall i :: i in mapPos ==> vctVal[mapPos[i]] == if i ==
        UINT32_MAX then Some(stamp) else ColumnsSeen(vals[i])
  {
    hide ValueIn, RowFits, NullBytes;
    assert |cols| == |vals| by { SameWidth(cols, vals); }
    var all := |mapPos| == 0;
    vctVal := seq(if all then |cols| else |mapPos|, _ => None);
    var lenPos, bys := base + NullBytes(|cols|), base + NullBytes(|cols|) + 4 * Vars(cols, |cols|);
    var i := 0;
    while i < |cols|
      invariant i <= |cols| && |vctVal| == if all then |cols| else |mapPos|
      invariant lenPos == LenPos(base, cols, i) && bys == CellPos(base, cols, vals, i)
      invariant all ==> forall j :: 0 <= j < i ==> vctVal[j] == ColumnsSeen(vals[j])
      invariant !all ==> forall j :: j in mapPos && j < i ==> vctVal[mapPos[j]] == ColumnsSeen(vals[j])
    {
      var dv, flen := ReadCell(s, base, cols, vals, i, lenPos, bys);
      if all {
        vctVal := vctVal[i := dv];
      } else if i in mapPos {
        vctVal := vctVal[mapPos[i] := dv];
      }
      bys := bys + flen;
      if cols[i].Variable? {
        lenPos := lenPos + 4;
      }
      i := i + 1;
    }
    if UINT32_MAX in mapPos {
      vctVal := vctVal[mapPos[UINT32_MAX] := Some(stamp)];
    }
  }

  lemma SameWidth(cols: seq<Column>, vals: seq<Cell>)
    requires RowFits(cols, vals)
    ensures |cols| == |vals|
  {
  }

  /** Writing a row and reading it gives the row back exactly when no cell is empty without being NULL. */
  method RoundTrip(cols: seq<Column>, vals: seq<Cell>) returns (back: seq<Cell>)
    requires RowFits(cols, vals) && |cols| <= UINT32_MAX
    ensures |back| == |vals| && forall i :: 0 <= i < |vals| ==> back[i] == ColumnsSeen(vals[i])
    ensures back == vals <==> forall i :: 0 <= i < |vals| ==> vals[i] != Some([])
  {
    hide ValueIn;
    var lenVal := CalcValueLength(cols, vals, 4 * Vars(cols, |cols|), false);
    var buf := new Byte[lenVal](_ => 0);
    FillValueBuff(buf, 0, cols, vals);
    back := ReadListValue(buf[..], 0, cols, vals, map[], []);
  }

  // ---------- the header ----------

  const REC_DELETE: nat := 0x40

  /** Where FillHeaderBuff puts the parts around a key of keyLen bytes, and where the value starts. */
  function FlagPos(keyLen: nat): nat { 2 + 2 + keyLen }
  function StampPos(keyLen: nat): nat { FlagPos(keyLen) + 1 }
  function ValLenPos(keyLen: nat): nat { StampPos(keyLen) + 8 }
  function ValueStart(keyLen: nat): nat { ValLenPos(keyLen) + 4 }

  /** The header RecStruct reads back: total length, key length, flags, stamp and value length. */
  ghost predicate HeaderIn(s: seq<Byte>, totalLen: nat, keyLen: nat, flags: nat, stamp: nat, valLen: nat) {
    && ValueStart(keyLen) <= |s|
    && LoadLE(s, 0, 2) == totalLen && LoadLE(s, 2, 2) == keyLen
    && LoadLE(s, FlagPos(keyLen), 1) == flags && LoadLE(s, StampPos(keyLen), 8) == stamp
    && LoadLE(s, ValLenPos(keyLen), 4) == valLen
  }

  /** A DELETE version holds no value. */
  function StoredLength(isDelete: bool, cols: seq<Column>, vals: seq<Cell>): nat
    requires |cols| == |vals|
  {
    if isDelete then 0 else ValueLength(cols, vals)
  }

  /** LeafRecord::FillHeaderBuff for a record without overflow page, and FillKeyBuff. */
  method FillRecord(totalLen: nat, key: seq<Byte>, verNum: nat, stamp: nat, isDelete: bool, cols: seq<Column>,
      vals: seq<Cell>)
    returns (bysVal: array<Byte>)
    requires RowFits(cols, vals) && totalLen == ValueStart(|key|) + StoredLength(isDelete, cols, vals) < 0x1_0000
    requires stamp < Pow256(8) && verNum == 1
    ensures fresh(bysVal) && bysVal.Length == totalLen
    ensures HeaderIn(bysVal[..], totalLen, |key|, (if isDelete then REC_DELETE else 0) + verNum, stamp,
                     StoredLength(isDelete, cols, vals))
    ensures bysVal[4..4 + |key|] == key && (!isDelete ==> ValueIn(bysVal[..], ValueStart(|key|), cols, vals))
  {
    SameWidth(cols, vals);
    hide ValueIn, LoadLE, RowFits, ValueLength, HeaderIn, StoredLength;
    var keyLen := |key|;
    bysVal := new Byte[totalLen](_ => 0);
    assert Pow256(1) == 256 && Pow256(2) == 0x1_0000 && Pow256(4) == 0x1_0000_0000;
    StoreLE(bysVal, 0, 2, totalLen);
    ghost var s1 := bysVal[..];
    StoreLE(bysVal, 2, 2, keyLen);
    ghost var s2 := bysVal[..];
    StoreLE(bysVal, FlagPos(keyLen), 1, (if isDelete then REC_DELETE else 0) + verNum);
    ghost var s3 := bysVal[..];
    StoreLE(bysVal, StampPos(keyLen), 8, stamp);
    ghost var s4 := bysVal[..];
    StoreLE(bysVal, ValLenPos(keyLen), 4, StoredLength(isDelete, cols, vals));
    ghost var s5 := bysVal[..];
    CopyBytes(bysVal, 4, key);
    ghost var s6 := bysVal[..];
    if !isDelete {
      FillValueBuff(bysVal, ValueStart(keyLen), cols, vals);
    }
    ghost var s7 := bysVal[..];
    HeaderLaid(s1, s2, s3, s4, s5, s6, s7, totalLen, key, (if isDelete then REC_DELETE else 0) + verNum, stamp,
               StoredLength(isDelete, cols, vals));
  }

  /** No later write touches an earlier part of the header or the key. */
  lemma HeaderLaid(s1: seq<Byte>, s2: seq<Byte>, s3: seq<Byte>, s4: seq<Byte>, s5: seq<Byte>, s6: seq<Byte>,
                   s7: seq<Byte>, totalLen: nat, key: seq<Byte>, flags: nat, stamp: nat, valLen: nat)
    requires ValueStart(|key|) <= |s1| && LoadLE(s1, 0, 2) == totalLen
    requires Outside(s1, s2, 2, 4) && LoadLE(s2, 2, 2) == |key|
    requires Outside(s2, s3, FlagPos(|key|), StampPos(|key|)) && LoadLE(s3, FlagPos(|key|), 1) == flags
    requires Outside(s3, s4, StampPos(|key|), ValLenPos(|key|)) && LoadLE(s4, StampPos(|key|), 8) == stamp
    requires Outside(s4, s5, ValLenPos(|key|), ValueStart(|key|)) && LoadLE(s5, ValLenPos(|key|), 4) == valLen
    requires Outside(s5, s6, 4, FlagPos(|key|)) && s6[4..4 + |key|] == key
    requires |s7| == |s6| && forall i :: 0 <= i < ValueStart(|key|) ==> s7[i] == s6[i]
    ensures HeaderIn(s7, totalLen, |key|, flags, stamp, valLen) && s7[4..4 + |key|] == key
  {
    hide LoadLE;
    assert s7[4..4 + |key|] == s6[4..4 + |key|];
    LoadFrame(s1, s7, 0, 2);
    LoadFrame(s2, s7, 2, 2);
    LoadFrame(s3, s7, FlagPos(|key|), 1);
    LoadFrame(s4, s7, StampPos(|key|), 8);
    LoadFrame(s5, s7, ValLenPos(|key|), 4);
  }

  // ---------- the buffer of an updated record ----------

  /** The buffer UpdateRecord asks for: it counts the value's bytes unless the record it replaces has an
      overflow page (LeafRecord.cpp:276-278). */
  function UpdateLen(keyLen: nat, lenVal: nat, oldOverflow: bool, newOverflow: bool): nat {
    2 + 2 + keyLen + (1 + 8 + 4 + if newOverflow then 4 + 4 + 2 else 0) + if oldOverflow then 0 else lenVal
  }

  /** The bytes the new version's header, key and value take: the value is not in the buffer if the new
      version has an overflow page. */
  function UpdateNeeds(keyLen: nat, lenVal: nat, newOverflow: bool): nat {
    ValueStart(keyLen) + if newOverflow then 4 + 4 + 2 else lenVal
  }

  /** The buffer is right exactly when old and new version agree on the overflow page, and too small exactly
      when the new version goes back from an overflow page to the buffer. */
  lemma UpdateLenIff(keyLen: nat, lenVal: nat, oldOverflow: bool, newOverflow: bool)
    requires lenVal > 0
    ensures UpdateLen(keyLen, lenVal, oldOverflow, newOverflow) == UpdateNeeds(keyLen, lenVal, newOverflow) <==>
        oldOverflow == newOverflow
    ensures UpdateLen(keyLen, lenVal, oldOverflow, newOverflow) < UpdateNeeds(keyLen, lenVal, newOverflow) <==>
        oldOverflow && !newOverflow
  {
  }
}
