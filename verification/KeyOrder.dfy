/** Key comparison (src/utils/BytesFuncs.h, src/core/BranchRecord.cpp, src/core/LeafRecord.h).

    A record key is a byte string and the index compares byte strings.  The rest of the tree model
    works with real numbers instead of byte strings: `Rank` maps a byte string to a real number and
    `RankOrders` shows that the map is injective and keeps the order, so nothing is lost by it. */
module KeyOrder {

  type Byte = b: int | 0 <= b < 256

  /** The dictionary order: negative, zero or positive, as the source's comparison functions. */
  function Lex(a: seq<Byte>, b: seq<Byte>): int {
    if a == [] && b == [] then 0
    else if a == [] then -1
    else if b == [] then 1
    else if a[0] < b[0] then -1
    else if a[0] > b[0] then 1
    else Lex(a[1..], b[1..])
  }

  // ---------- the word-wise comparison refines the dictionary order ----------

  function Pow256(n: nat): (p: nat)
    ensures p > 0
  {
    if n == 0 then 1 else 256 * Pow256(n - 1)
  }

  /** The number a big-endian load of the bytes gives; for 8 bytes it is BytesSwap64 of the word. */
  function BigEndian(s: seq<Byte>): (v: nat)
    ensures v < Pow256(|s|)
  {
    if s == [] then 0
    else
      var d: nat, p := s[0] as nat, Pow256(|s| - 1);
      LeadingDigitBound(d, p, BigEndian(s[1..]));
      d * p + BigEndian(s[1..])
  }

  lemma LeadingDigitBound(d: nat, p: nat, v: nat)
    requires d < 256 && v < p
    ensures d * p + v < 256 * p
  {
    assert (d + 1) * p <= 256 * p;
  }

  lemma {:induction false} BigEndianOrders(a: seq<Byte>, b: seq<Byte>)
    requires |a| == |b|
    ensures BigEndian(a) < BigEndian(b) <==> Lex(a, b) < 0
    ensures BigEndian(a) == BigEndian(b) <==> a == b
  {
    if a != [] {
      BigEndianOrders(a[1..], b[1..]);
      assert a == [a[0]] + a[1..] && b == [b[0]] + b[1..];
      LeadingDigit(a[0], b[0], Pow256(|a| - 1), BigEndian(a[1..]), BigEndian(b[1..]));
    }
  }

  lemma LeadingDigit(x: nat, y: nat, p: nat, u: nat, v: nat)
    requires u < p && v < p
    ensures x < y ==> x * p + u < y * p + v
    ensures x > y ==> x * p + u > y * p + v
  {
    if x < y {
      assert (x + 1) * p <= y * p;
    } else if y < x {
      assert (y + 1) * p <= x * p;
    }
  }

  /** Equal-length blocks decide the comparison unless they are equal. */
  lemma {:induction false} LexBlocks(u: seq<Byte>, v: seq<Byte>, x: seq<Byte>, y: seq<Byte>)
    requires |u| == |v|
    ensures Lex(u + x, v + y) == if u == v then Lex(x, y) else Lex(u, v)
  {
    if u == [] {
      assert u + x == x && v + y == y;
    } else {
      LexBlocks(u[1..], v[1..], x, y);
      assert (u + x)[1..] == u[1..] + x && (v + y)[1..] == v[1..] + y;
      assert u == [u[0]] + u[1..] && v == [v[0]] + v[1..];
    }
  }

  lemma {:induction false} LexEqual(a: seq<Byte>, b: seq<Byte>)
    ensures Lex(a, b) == 0 <==> a == b
  {
    if a != [] && b != [] {
      LexEqual(a[1..], b[1..]);
      assert a == [a[0]] + a[1..] && b == [b[0]] + b[1..];
    }
  }

  /** One step of the word loop: equal words move on, different words decide. */
  lemma WordStep(a: seq<Byte>, b: seq<Byte>, i: nat, w: nat)
    requires i + w <= |a| && i + w <= |b|
    ensures a[i..i + w] == b[i..i + w] ==> Lex(a[i..], b[i..]) == Lex(a[i + w..], b[i + w..])
    ensures a[i..i + w] != b[i..i + w] ==> Lex(a[i..], b[i..]) == Lex(a[i..i + w], b[i..i + w])
  {
    LexBlocks(a[i..i + w], b[i..i + w], a[i + w..], b[i + w..]);
    assert a[i..] == a[i..i + w] + a[i + w..];
    assert b[i..] == b[i..i + w] + b[i + w..];
  }

  lemma ByteStep(a: seq<Byte>, b: seq<Byte>, i: nat)
    requires i < |a| && i < |b|
    ensures a[i] == b[i] ==> Lex(a[i..], b[i..]) == Lex(a[i + 1..], b[i + 1..])
    ensures a[i] < b[i] ==> Lex(a[i..], b[i..]) < 0
    ensures a[i] > b[i] ==> Lex(a[i..], b[i..]) > 0
  {
  }

  lemma LexEnd(a: seq<Byte>, b: seq<Byte>, i: nat)
    requires i <= |a| && i <= |b| && (i == |a| || i == |b|)
    ensures Lex(a[i..], b[i..]) < 0 <==> |a| < |b|
    ensures Lex(a[i..], b[i..]) > 0 <==> |a| > |b|
  {
  }

  /** The comparison the index uses: eight bytes at a time as byte-swapped words, then byte by byte. */
  method BytesCompare(a: seq<Byte>, b: seq<Byte>) returns (hr: int)
    ensures hr < 0 <==> Lex(a, b) < 0
    ensures hr > 0 <==> Lex(a, b) > 0
  {
    hide Lex, BigEndian;
    var minLen := if |a| < |b| then |a| else |b|;
    var min8 := minLen - minLen % 8;
    var i := 0;
    while i < min8
      invariant 0 <= i <= min8 && i % 8 == 0
      invariant Lex(a[i..], b[i..]) == Lex(a, b)
    {
      var v1 := BigEndian(a[i..i + 8]);
      var v2 := BigEndian(b[i..i + 8]);
      BigEndianOrders(a[i..i + 8], b[i..i + 8]);
      WordStep(a, b, i, 8);
      if v1 != v2 {
        LexEqual(a[i..i + 8], b[i..i + 8]);
        return if v1 > v2 then 1 else -1;
      }
      i := i + 8;
    }
    while i < minLen
      invariant 0 <= i <= minLen
      invariant Lex(a[i..], b[i..]) == Lex(a, b)
    {
      ByteStep(a, b, i);
      hr := a[i] as int - b[i] as int;
      if hr != 0 {
        return;
      }
      i := i + 1;
    }
    hr := |a| - |b|;
    LexEnd(a, b, minLen);
  }

  // ---------- byte strings as real numbers ----------

  function Rank(s: seq<Byte>): (r: real)
    ensures 0.0 <= r < 1.0
  {
    if s == [] then 0.0 else ((s[0] as int + 1) as real + Rank(s[1..])) / 257.0
  }

  /** `Rank` is an order embedding of byte strings into the reals. */
  lemma {:induction false} RankOrders(a: seq<Byte>, b: seq<Byte>)
    ensures Lex(a, b) < 0 <==> Rank(a) < Rank(b)
    ensures Lex(a, b) > 0 <==> Rank(a) > Rank(b)
    ensures Rank(a) == Rank(b) <==> a == b
  {
    if a != [] && b != [] {
      RankOrders(a[1..], b[1..]);
      assert a == [a[0]] + a[1..] && b == [b[0]] + b[1..];
    }
  }

  // ---------- the order of records ----------

  /** A record's place in the index: the rank of its key bytes and of its value bytes.  A unique index
      compares keys only and gives every record the value rank zero. */
  datatype Key = Key(key: real, val: real)

  predicate Lt(a: Key, b: Key) {
    a.key < b.key || (a.key == b.key && a.val < b.val)
  }

  predicate Le(a: Key, b: Key) {
    Lt(a, b) || a == b
  }

  predicate ProperPrefix(a: seq<Byte>, b: seq<Byte>) {
    |a| < |b| && b[..|a|] == a
  }

  function KeyOf(k: seq<Byte>, v: seq<Byte>): Key {
    Key(Rank(k), Rank(v))
  }

  /** A non-unique index compares the bytes of key and value run together. */
  predicate ConcatLess(k1: seq<Byte>, v1: seq<Byte>, k2: seq<Byte>, v2: seq<Byte>) {
    Lex(k1 + v1, k2 + v2) < 0
  }

  /** Comparing the concatenation is comparing key first and value second, for all values, exactly when
      neither key is a proper prefix of the other.  A short character key column gets a terminating zero
      (src/dataType/DataValueVarChar.cpp:186-192), which rules proper prefixes out for texts without zero bytes;
      of texts that hold one, "a" and "a\0b" remain, whose keys are 61 00 and 61 00 62 00. */
  lemma ConcatIsKeyThenValue(k1: seq<Byte>, k2: seq<Byte>)
    ensures (forall v1, v2 :: ConcatLess(k1, v1, k2, v2) <==> Lt(KeyOf(k1, v1), KeyOf(k2, v2)))
            <==> !ProperPrefix(k1, k2) && !ProperPrefix(k2, k1)
  {
    if ProperPrefix(k1, k2) {
      var t := k2[|k1|..];
      assert k2 == k1 + t;
      var v1 := t + [0];
      assert k1 + v1 == k2 + [0] && k2 + [] == k2 + [];
      LexBlocks(k2, k2, [0], []);
      assert !ConcatLess(k1, v1, k2, []);
      LexBlocks(k1, k1, [], t);
      assert k1 + [] == k1;
      RankOrders(k1, k2);
    } else if ProperPrefix(k2, k1) {
      var t := k1[|k2|..];
      assert k1 == k2 + t;
      var v2 := t + [0];
      assert k2 + v2 == k1 + [0];
      LexBlocks(k1, k1, [], [0]);
      assert ConcatLess(k1, [], k2, v2);
      LexBlocks(k2, k2, t, []);
      assert k2 + [] == k2;
      RankOrders(k1, k2);
    } else {
      forall v1, v2 ensures ConcatLess(k1, v1, k2, v2) <==> Lt(KeyOf(k1, v1), KeyOf(k2, v2)) {
        RankOrders(k1, k2);
        RankOrders(v1, v2);
        if k1 == k2 {
          LexBlocks(k1, k2, v1, v2);
        } else {
          NotPrefixDecides(k1, k2, v1, v2);
        }
      }
    }
  }

  lemma {:induction false} NotPrefixDecides(k1: seq<Byte>, k2: seq<Byte>, v1: seq<Byte>, v2: seq<Byte>)
    requires k1 != k2 && !ProperPrefix(k1, k2) && !ProperPrefix(k2, k1)
    ensures Lex(k1 + v1, k2 + v2) == Lex(k1, k2)
  {
    assert k1 != [] && k2 != [];
    assert k1 == [k1[0]] + k1[1..] && k2 == [k2[0]] + k2[1..];
    if k1[0] == k2[0] {
      NotPrefixDecides(k1[1..], k2[1..], v1, v2);
      assert (k1 + v1)[1..] == k1[1..] + v1 && (k2 + v2)[1..] == k2[1..] + v2;
    }
  }
}
