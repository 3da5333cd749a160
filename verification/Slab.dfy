/** Size classes, buffers and buffer pools of the memory cache (src/cache/BufferPool.cpp,
    src/cache/CachePool.h:154-171).

    A buffer is one block of memory cut into elements of one size; its free list holds the numbers of the
    free elements.  Addresses are numbers; blocks start at multiples of the block size. */
module Slab {
  import opened PageIds

  const BLOCK: nat := 128 * 1024

  const SIZES: seq<nat> := [16, 32, 48, 64, 96, 128, 160, 192, 224, 256, 384, 512, 640, 768,
                            896, 1024, 1536, 2048, 2560, 3072, 3584, 4096, 6144, 8192, 10240, 12288, 14336, 16384]

  const CLASSES: nat := 28

  /** The class of a size; none for larger blocks. */
  function CalcBufSize(sz: nat): (pos: int)
    requires sz > 0
  {
    if sz <= 64 then (sz - 1) / 16
    else if sz <= 256 then (sz - 1) / 32 + 2
    else if sz <= 1024 then (sz - 1) / 128 + 8
    else if sz <= 4096 then (sz - 1) / 512 + 14
    else if sz <= 16384 then (sz - 1) / 2048 + 20
    else -1
  }

  /** The class is the smallest one that holds the size, so the size it really gives belongs to the same
      class: a block goes back to the class it came from. */
  lemma ClassFits(sz: nat)
    requires 0 < sz <= 16384
    ensures var pos := CalcBufSize(sz);
      && 0 <= pos < CLASSES && sz <= SIZES[pos] && (pos > 0 ==> SIZES[pos - 1] < sz)
      && CalcBufSize(SIZES[pos]) == pos
  {
    var pos := CalcBufSize(sz);
    SizeOf(pos);
    if pos > 0 { SizeOf(pos - 1); }
  }

  /** The sizes grow by steps of 16, 32, 128, 512 and 2048. */
  lemma SizeOf(pos: nat)
    requires pos < CLASSES
    ensures SIZES[pos] == if pos < 4 then 16 * (pos + 1) else if pos < 10 then 32 * (pos - 1)
                          else if pos < 16 then 128 * (pos - 7) else if pos < 22 then 512 * (pos - 13)
                          else 2048 * (pos - 19)
  {
  }

  /** How many blocks of a class a thread keeps. */
  function Capacity(pos: nat): (n: nat)
    requires pos < CLASSES
    ensures n >= 32
  {
    if SIZES[pos] >= 512 then 32 else 16384 / SIZES[pos]
  }

  /** It is the most that fits 16 KB, but never less than 32. */
  lemma CapacityFits(pos: nat, n: nat)
    requires pos < CLASSES
    ensures n <= Capacity(pos) <==> n <= 32 || n * SIZES[pos] <= 16384
  {
    SizeOf(pos);
    var size := SIZES[pos];
    if size < 512 {
      var q := 16384 / size;
      assert q * size <= 16384 < (q + 1) * size;
      if n <= q { MulMono(size, n, q); } else { MulMono(size, q + 1, n); }
    } else if n > 32 {
      MulMono(size, 33, n);
    }
  }

  // ---------- addresses ----------

  function Slots(size: nat): nat
    requires size > 0
  {
    BLOCK / size
  }

  function Addr(base: nat, size: nat, i: nat): nat {
    base + size * i
  }

  /** Buffer::CalcAddr. */
  function BaseOf(a: nat): nat {
    a - a % BLOCK
  }

  function IndexOf(a: nat, size: nat): nat
    requires size > 0
  {
    a % BLOCK / size
  }

  lemma AddrParts(base: nat, size: nat, i: nat)
    requires base % BLOCK == 0 && size > 0 && i < Slots(size)
    ensures BaseOf(Addr(base, size, i)) == base && IndexOf(Addr(base, size, i), size) == i
    ensures Addr(base, size, i) % BLOCK == size * i
  {
    var n := Slots(size);
    assert BLOCK == n * size + BLOCK % size;
    assert size * i < BLOCK by {
      assert size * (i + 1) == size * i + size;
      MulMono(size, i + 1, n);
    }
    ModAdd(base, size * i);
    DivExact(size, i);
  }

  lemma MulMono(k: nat, x: nat, y: nat)
    requires x <= y
    ensures k * x <= k * y
  {
  }

  lemma ModAdd(base: nat, d: nat)
    requires base % BLOCK == 0 && d < BLOCK
    ensures (base + d) % BLOCK == d
  {
  }

  lemma DivExact(k: nat, i: nat)
    requires k > 0
    ensures k * i / k == i && k * i % k == 0
  {
    var q := k * i / k;
    assert k * i == k * q + k * i % k;
    if i > q { MulMono(k, q + 1, i); } else if q > i { MulMono(k, i + 1, q); }
  }

  /** The address is that of an element of its block. */
  predicate OnGrid(a: nat, size: nat)
    requires size > 0
  {
    a % BLOCK == size * IndexOf(a, size) && IndexOf(a, size) < Slots(size)
  }

  lemma GridAddr(a: nat, size: nat)
    requires size > 0 && OnGrid(a, size)
    ensures a == Addr(BaseOf(a), size, IndexOf(a, size)) && BaseOf(a) % BLOCK == 0
  {
  }

  // ---------- pools ----------

  /** The buffers of one class with their free lists, and the buffers that have a free element. */
  datatype Pool = Pool(size: nat, bufs: map<nat, seq<nat>>, free: set<nat>)

  ghost predicate FreeOk(size: nat, fr: seq<nat>)
    requires size > 0
  {
    (forall i :: 0 <= i < |fr| ==> fr[i] < Slots(size)) && Distinct(fr)
  }

  /** The address is an element of one of the pool's buffers that is not free there. */
  predicate HandedOut(p: Pool, a: nat)
    requires p.size > 0
  {
    BaseOf(a) in p.bufs && OnGrid(a, p.size) && IndexOf(a, p.size) !in p.bufs[BaseOf(a)]
  }

  /** `out` are the elements outside the free lists. */
  ghost predicate PoolOk(p: Pool, out: set<nat>) {
    && p.size > 0 && Slots(p.size) > 0
    && (forall b :: b in p.bufs ==> b % BLOCK == 0 && FreeOk(p.size, p.bufs[b]))
    && (forall b :: b in p.free <==> b in p.bufs && p.bufs[b] != [])
    && (forall a {:trigger a in out} {:trigger HandedOut(p, a)} :: a in out <==> HandedOut(p, a))
  }

  function WithFree(p: Pool, b: nat, fr: seq<nat>): Pool {
    Pool(p.size, p.bufs[b := fr], if fr == [] then p.free - {b} else p.free + {b})
  }

  /** One element leaves its free list. */
  lemma TakeOne(p: Pool, out: set<nat>, b: nat)
    requires PoolOk(p, out) && b in p.free
    ensures b in p.bufs && |p.bufs[b]| > 0
    ensures var fr := p.bufs[b]; var n := |fr| - 1; var a := Addr(b, p.size, fr[n]);
      a !in out && BaseOf(a) == b && PoolOk(WithFree(p, b, fr[..n]), out + {a})
  {
    var fr := p.bufs[b];
    var n := |fr| - 1;
    var a := Addr(b, p.size, fr[n]);
    var p' := WithFree(p, b, fr[..n]);
    AddrParts(b, p.size, fr[n]);
    assert !HandedOut(p, a);
    hide OnGrid, IndexOf, BaseOf, Slots;
    forall x ensures x in out + {a} <==> HandedOut(p', x) {
      assert x in out <==> HandedOut(p, x);
      TakeCase(p, b, a, x);
    }
  }

  lemma TakeCase(p: Pool, b: nat, a: nat, x: nat)
    requires p.size > 0 && b in p.bufs && |p.bufs[b]| > 0 && b % BLOCK == 0 && FreeOk(p.size, p.bufs[b])
    requires a == Addr(b, p.size, p.bufs[b][|p.bufs[b]| - 1])
    ensures HandedOut(WithFree(p, b, p.bufs[b][..|p.bufs[b]| - 1]), x) <==> HandedOut(p, x) || x == a
  {
    var fr := p.bufs[b];
    var n := |fr| - 1;
    AddrParts(b, p.size, fr[n]);
    assert fr == fr[..n] + [fr[n]];
    if OnGrid(x, p.size) { GridAddr(x, p.size); }
  }

  /** One element goes back to its free list. */
  lemma PutOne(p: Pool, out: set<nat>, a: nat)
    requires PoolOk(p, out) && a in out
    ensures BaseOf(a) in p.bufs && IndexOf(a, p.size) !in p.bufs[BaseOf(a)]
    ensures PoolOk(WithFree(p, BaseOf(a), p.bufs[BaseOf(a)] + [IndexOf(a, p.size)]), out - {a})
  {
    assert HandedOut(p, a);
    var b, i := BaseOf(a), IndexOf(a, p.size);
    var p' := WithFree(p, b, p.bufs[b] + [i]);
    forall x ensures x in out - {a} <==> HandedOut(p', x) {
      assert x in out <==> HandedOut(p, x);
      PutCase(p, a, x);
    }
  }

  lemma PutCase(p: Pool, a: nat, x: nat)
    requires p.size > 0 && HandedOut(p, a)
    ensures HandedOut(WithFree(p, BaseOf(a), p.bufs[BaseOf(a)] + [IndexOf(a, p.size)]), x) <==>
        HandedOut(p, x) && x != a
  {
    if OnGrid(x, p.size) && BaseOf(x) == BaseOf(a) && IndexOf(x, p.size) == IndexOf(a, p.size) {
      GridAddr(x, p.size);
      GridAddr(a, p.size);
    }
  }

  // ---------- the block test as written ----------

  /** The bitwise exclusive or of two numbers. */
  function Xor(a: nat, b: nat): (r: nat)
    ensures r == 0 <==> a == b
  {
    if a == 0 && b == 0 then 0 else 2 * Xor(a / 2, b / 2) + if a % 2 == b % 2 then 0 else 1
  }

  /** Buffer::Release compares the distance with `>` (src/cache/BufferPool.cpp:72). */
  predicate Accepted(a: nat, base: nat) {
    Xor(a, base) <= BLOCK
  }

  /** The block whose number differs in the lowest bit. */
  function Buddy(base: nat): nat
    requires base % BLOCK == 0
  {
    if base / BLOCK % 2 == 0 then base + BLOCK else base - BLOCK
  }

  /** The test accepts the addresses of the buffer's block and one more, the first one of the buddy block. */
  lemma WrittenBlockTest(a: nat, base: nat)
    requires base % BLOCK == 0
    ensures Accepted(a, base) <==> BaseOf(a) == base || a == Buddy(base)
  {
    hide Xor;
    XorBlock(a, base);
    XorOne(a / BLOCK, base / BLOCK);
  }

  /** Below the block number the buffer's address has no bits, so there the distance is the offset. */
  lemma XorBlock(a: nat, b: nat)
    requires b % BLOCK == 0
    ensures Xor(a, b) == BLOCK * Xor(a / BLOCK, b / BLOCK) + a % BLOCK
  {
    ByteParts(a);
    ByteParts(b);
    hide Xor;
    XorByte(a, b);
    XorByte(a / 256, b / 256);
    XorEven(a / 65536, b / 65536);
  }

  lemma ByteParts(a: nat)
    ensures a / 256 / 256 == a / 65536 && a / 65536 / 2 == a / BLOCK
    ensures a % BLOCK == 65536 * (a / 65536 % 2) + 256 * (a / 256 % 256) + a % 256
    ensures a % BLOCK == 0 ==> a % 256 == 0 && a / 256 % 256 == 0 && a / 65536 % 2 == 0
  {
    var q, r := a / 256, a % 256;
    var u, v := q / 256, q % 256;
    var w, z := u / 2, u % 2;
    assert a == BLOCK * w + (65536 * z + 256 * v + r);
  }

  lemma XorByte(a: nat, b: nat)
    requires b % 256 == 0
    ensures Xor(a, b) == 256 * Xor(a / 256, b / 256) + a % 256
  {
    hide Xor;
    XorFour(a, b);
    XorFour(a / 16, b / 16);
  }

  lemma XorFour(a: nat, b: nat)
    requires b % 16 == 0
    ensures Xor(a, b) == 16 * Xor(a / 16, b / 16) + a % 16
  {
    hide Xor;
    XorEven(a, b);
    XorEven(a / 2, b / 2);
    XorEven(a / 4, b / 4);
    XorEven(a / 8, b / 8);
  }

  lemma XorEven(a: nat, b: nat)
    requires b % 2 == 0
    ensures Xor(a, b) == 2 * Xor(a / 2, b / 2) + a % 2
  {
  }

  lemma XorOne(x: nat, y: nat)
    ensures Xor(x, y) == 1 <==> x == if y % 2 == 0 then y + 1 else y - 1
  {
    assert Xor(x / 2, y / 2) == 0 <==> x / 2 == y / 2;
  }

  /** What the written test does with that address: element 0 of the buddy block joins the free list of this
      buffer as its own element 0, and if that element is in use the next one handed out is in use. */
  lemma MisplacedIsHandedOutTwice(p: Pool, out: set<nat>, base: nat, a: nat)
    requires PoolOk(p, out) && base in p.bufs && a in out && Accepted(a, base) && BaseOf(a) != base
    requires Addr(base, p.size, 0) in out
    ensures var fr := p.bufs[base] + [IndexOf(a, p.size)];
      a == Buddy(base) && Addr(base, p.size, fr[|fr| - 1]) in out - {a}
  {
    PoolBase(p, out, base);
    hide *;
    WrittenBlockTest(a, base);
    FirstElements(base, p.size);
  }

  lemma PoolBase(p: Pool, out: set<nat>, base: nat)
    requires PoolOk(p, out) && base in p.bufs
    ensures base % BLOCK == 0 && p.size > 0
  {
  }

  lemma FirstElements(base: nat, size: nat)
    requires base % BLOCK == 0 && size > 0
    ensures IndexOf(Buddy(base), size) == 0 && BaseOf(base) == base && Addr(base, size, 0) == base
  {
    assert Buddy(base) % BLOCK == 0;
    hide Buddy;
    FirstIndex(Buddy(base), size);
  }

  lemma FirstIndex(a: nat, size: nat)
    requires size > 0 && a % BLOCK == 0
    ensures IndexOf(a, size) == 0
  {
    DivExact(size, 0);
  }
}
