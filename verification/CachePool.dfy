/** The memory cache: pools for 28 sizes, a cache per thread, and the blocks they share
    (src/cache/CachePool.cpp:58-105 and 149-183, src/cache/CachePool.h:112-171).

    Every element is in exactly one place: in a user's hands, in one thread's cache, or in the free list
    of its buffer.  Each method is one atomic step. */
module CachePool {
  import opened PageIds
  import opened Slab

  type ThreadId = nat

  const USER: int := -1
  const FREE: int := -1
  const MAX_FREE_BUFFERS: nat := 128

  /** A thread's cached elements per class and its share of the used memory. */
  datatype Local = Local(vct: seq<seq<nat>>, memStat: int)

  // ---------- who holds an element ----------

  /** Thread t caches the elements the table says it holds, each once, and not too many. */
  ghost predicate CacheOk(h: map<nat, int>, t: ThreadId, vct: seq<nat>, pos: nat)
    requires pos < CLASSES
  {
    |vct| <= Capacity(pos) && Distinct(vct) && forall a {:trigger a in vct} {:trigger a in h} :: a in vct <==>
        a in h && h[a] == t
  }

  ghost predicate LocalOk(h: map<nat, int>, locals: map<ThreadId, Local>, t: ThreadId, pos: nat)
    requires pos < CLASSES && t in locals
  {
    |locals[t].vct| == CLASSES && CacheOk(h, t, locals[t].vct[pos], pos)
  }

  /** One class: the elements outside the free lists are those with a holder. */
  ghost predicate ClassOk(pos: nat, p: Pool, h: map<nat, int>, locals: map<ThreadId, Local>)
    requires pos < CLASSES
  {
    && p.size == SIZES[pos] && PoolOk(p, h.Keys)
    && (forall a :: a in h ==> h[a] == USER || (h[a] >= 0 && h[a] in locals))
    && (forall t {:trigger LocalOk(h, locals, t, pos)} :: t in locals ==> LocalOk(h, locals, t, pos))
  }

  /** Every block has one home: a class, or the list of free blocks. */
  ghost predicate HomeOk(home: map<nat, int>, pools: seq<Pool>, freeBuf: seq<nat>) {
    && |pools| == CLASSES
    && (forall b :: b in home ==> b % BLOCK == 0)
    && (forall c, b {:trigger b in pools[c].bufs} :: 0 <= c < CLASSES ==>
        (b in pools[c].bufs <==> b in home && home[b] == c))
    && Distinct(freeBuf)
    && (forall b {:trigger b in freeBuf} :: b in freeBuf <==> b in home && home[b] == FREE)
    && (forall b :: b in home ==> FREE <= home[b] < CLASSES)
  }

  ghost function Users(h: map<nat, int>): set<nat> {
    set a | a in h && h[a] == USER
  }

  // ---------- steps of one element ----------

  function WithCache(locals: map<ThreadId, Local>, t: ThreadId, pos: nat, vct: seq<nat>): map<ThreadId, Local>
    requires t in locals && pos < |locals[t].vct|
  {
    locals[t := locals[t].(vct := locals[t].vct[pos := vct])]
  }

  /** Another class does not notice. */
  lemma OtherClass(c: nat, p: Pool, h: map<nat, int>, locals: map<ThreadId, Local>, t: ThreadId, pos: nat,
      vct: seq<nat>)
    requires c < CLASSES && pos < CLASSES && c != pos && ClassOk(c, p, h, locals) && t in locals &&
        |locals[t].vct| == CLASSES
    ensures ClassOk(c, p, h, WithCache(locals, t, pos, vct))
  {
    hide PoolOk, CacheOk;
    var locals' := WithCache(locals, t, pos, vct);
    forall u | u in locals' ensures LocalOk(h, locals', u, c) {
      assert LocalOk(h, locals, u, c);
    }
  }

  /** From a free list into a cache. */
  lemma TakeStep(pos: nat, p: Pool, h: map<nat, int>, locals: map<ThreadId, Local>, t: ThreadId, b: nat)
    requires pos < CLASSES && ClassOk(pos, p, h, locals) && t in locals && b in p.free
    requires |locals[t].vct| == CLASSES && |locals[t].vct[pos]| < Capacity(pos)
    ensures b in p.bufs && |p.bufs[b]| > 0
    ensures var n := |p.bufs[b]| - 1; var a := Addr(b, p.size, p.bufs[b][n]);
      && a !in h
      && ClassOk(pos, WithFree(p, b, p.bufs[b][..n]), h[a := t], WithCache(locals, t, pos, locals[t].vct[pos] + [a]))
      && Users(h[a := t]) == Users(h)
  {
    hide PoolOk, HandedOut;
    TakeOne(p, h.Keys, b);
    var n := |p.bufs[b]| - 1;
    var a := Addr(b, p.size, p.bufs[b][n]);
    var h', locals' := h[a := t], WithCache(locals, t, pos, locals[t].vct[pos] + [a]);
    assert h'.Keys == h.Keys + {a};
    hide Addr, WithFree;
    forall u | u in locals' ensures LocalOk(h', locals', u, pos) {
      assert LocalOk(h, locals, u, pos);
    }
  }

  function Without(s: seq<nat>, i: nat): seq<nat>
    requires i < |s|
  {
    s[..i] + s[i + 1..]
  }

  lemma WithoutMembers(s: seq<nat>, i: nat)
    requires i < |s| && Distinct(s)
    ensures Distinct(Without(s, i)) && |Without(s, i)| == |s| - 1
    ensures forall a :: a in Without(s, i) <==> a in s && a != s[i]
  {
    var w := Without(s, i);
    forall a | a in s && a != s[i] ensures a in w {
      var j :| 0 <= j < |s| && s[j] == a;
      assert w[if j < i then j else j - 1] == a;
    }
  }

  /** From a cache back into the free list. */
  lemma PutStep(pos: nat, p: Pool, h: map<nat, int>, locals: map<ThreadId, Local>, t: ThreadId, i: nat)
    requires pos < CLASSES && ClassOk(pos, p, h, locals) && t in locals
    requires |locals[t].vct| == CLASSES && i < |locals[t].vct[pos]|
    ensures var vct := locals[t].vct[pos]; var a := vct[i];
      && p.size > 0 && a in h && BaseOf(a) in p.bufs
      && ClassOk(pos, WithFree(p, BaseOf(a), p.bufs[BaseOf(a)] + [IndexOf(a, p.size)]), h - {a},
          WithCache(locals, t, pos, Without(vct, i)))
      && Users(h - {a}) == Users(h)
  {
    hide PoolOk, HandedOut;
    assert LocalOk(h, locals, t, pos);
    var vct := locals[t].vct[pos];
    var a := vct[i];
    assert a in vct;
    PoolSize(p, h.Keys);
    PutOne(p, h.Keys, a);
    WithoutMembers(vct, i);
    var h', locals' := h - {a}, WithCache(locals, t, pos, Without(vct, i));
    assert h'.Keys == h.Keys - {a};
    hide BaseOf, IndexOf, WithFree, Without;
    forall u | u in locals' ensures LocalOk(h', locals', u, pos) {
      assert LocalOk(h, locals, u, pos);
    }
  }

  lemma PoolSize(p: Pool, out: set<nat>)
    requires PoolOk(p, out)
    ensures p.size > 0
  {
  }

  lemma ClassSize(pos: nat, p: Pool, h: map<nat, int>, locals: map<ThreadId, Local>)
    requires pos < CLASSES && ClassOk(pos, p, h, locals)
    ensures p.size == SIZES[pos] && p.size > 0
  {
  }

  // ---------- steps of one block ----------

  function AllSlots(size: nat): (r: seq<nat>)
    requires size > 0
    ensures |r| == Slots(size) && forall i :: 0 <= i < |r| ==> r[i] == i
  {
    seq(Slots(size), i requires 0 <= i < Slots(size) => i)
  }

  /** Buffer::Init: all elements of a new buffer are free. */
  lemma NewBuffer(pos: nat, p: Pool, h: map<nat, int>, locals: map<ThreadId, Local>, b: nat)
    requires pos < CLASSES && ClassOk(pos, p, h, locals) && b !in p.bufs && b % BLOCK == 0
    ensures p.size > 0 && ClassOk(pos, WithFree(p, b, AllSlots(p.size)), h, locals)
    ensures b in WithFree(p, b, AllSlots(p.size)).free
  {
    PoolSize(p, h.Keys);
    var p' := WithFree(p, b, AllSlots(p.size));
    forall a ensures a in h.Keys <==> HandedOut(p', a) {
      assert a in h.Keys <==> HandedOut(p, a);
      if BaseOf(a) == b && OnGrid(a, p.size) {
        assert AllSlots(p.size)[IndexOf(a, p.size)] == IndexOf(a, p.size);
      }
    }
  }

  lemma AllThere(s: seq<nat>, n: nat, k: nat)
    requires Distinct(s) && |s| == n && (forall i :: 0 <= i < n ==> s[i] < n) && k < n
    ensures k in s
  {
    CardSeq(s);
    if k !in s {
      assert Elems(s) <= IdRun(0, n) - {k};
      SubsetCard(Elems(s), IdRun(0, n) - {k});
    }
  }

  lemma {:induction false} SubsetCard(a: set<nat>, b: set<nat>)
    requires a <= b
    ensures |a| <= |b|
  {
    if a != {} {
      var x :| x in a;
      SubsetCard(a - {x}, b - {x});
    }
  }

  function BlockRemoved(p: Pool, b: nat): Pool {
    Pool(p.size, p.bufs - {b}, p.free - {b})
  }

  /** A buffer whose elements are all free can leave the pool. */
  lemma FullLeaves(pos: nat, p: Pool, h: map<nat, int>, locals: map<ThreadId, Local>, b: nat)
    requires pos < CLASSES && ClassOk(pos, p, h, locals) && b in p.bufs && p.size > 0 && |p.bufs[b]| == Slots(p.size)
    ensures ClassOk(pos, BlockRemoved(p, b), h, locals)
  {
    var p' := BlockRemoved(p, b);
    forall a ensures a in h.Keys <==> HandedOut(p', a) {
      assert a in h.Keys <==> HandedOut(p, a);
      if BaseOf(a) == b && OnGrid(a, p.size) {
        AllThere(p.bufs[b], Slots(p.size), IndexOf(a, p.size));
      }
    }
  }

  // ---------- all classes together ----------

  ghost predicate ClassesOk(pools: seq<Pool>, holder: seq<map<nat, int>>, locals: map<ThreadId, Local>) {
    && |pools| == |holder| == CLASSES
    && (forall t :: t in locals ==> |locals[t].vct| == CLASSES)
    && forall c {:trigger ClassOk(c, pools[c], holder[c], locals)} :: 0 <= c < CLASSES ==>
        ClassOk(c, pools[c], holder[c], locals)
  }

  lemma ClassesStep(pools: seq<Pool>, holder: seq<map<nat, int>>, locals: map<ThreadId, Local>,
                    pos: nat, p': Pool, h': map<nat, int>, t: ThreadId, vct: seq<nat>)
    requires ClassesOk(pools, holder, locals) && pos < CLASSES && t in locals
    requires ClassOk(pos, p', h', WithCache(locals, t, pos, vct))
    ensures ClassesOk(pools[pos := p'], holder[pos := h'], WithCache(locals, t, pos, vct))
  {
    hide ClassOk;
    var pools', holder', locals' := pools[pos := p'], holder[pos := h'], WithCache(locals, t, pos, vct);
    forall c | 0 <= c < CLASSES ensures ClassOk(c, pools'[c], holder'[c], locals') {
      assert ClassOk(c, pools[c], holder[c], locals);
      if c != pos { OtherClass(c, pools[c], holder[c], locals, t, pos, vct); }
    }
  }

  lemma ClassAt(pools: seq<Pool>, holder: seq<map<nat, int>>, locals: map<ThreadId, Local>, pos: nat)
    requires ClassesOk(pools, holder, locals) && pos < CLASSES
    ensures |pools| == |holder| == CLASSES && ClassOk(pos, pools[pos], holder[pos], locals)
    ensures forall t :: t in locals ==> |locals[t].vct| == CLASSES
  {
  }

  lemma PoolStep(pools: seq<Pool>, holder: seq<map<nat, int>>, locals: map<ThreadId, Local>, pos: nat, p': Pool)
    requires ClassesOk(pools, holder, locals) && pos < CLASSES && ClassOk(pos, p', holder[pos], locals)
    ensures ClassesOk(pools[pos := p'], holder, locals)
  {
    hide ClassOk;
    var pools' := pools[pos := p'];
    forall c | 0 <= c < CLASSES ensures ClassOk(c, pools'[c], holder[c], locals) {
      assert ClassOk(c, pools[c], holder[c], locals);
    }
  }

  lemma HomeSame(home: map<nat, int>, pools: seq<Pool>, freeBuf: seq<nat>, pos: nat, p': Pool)
    requires HomeOk(home, pools, freeBuf) && pos < CLASSES && p'.bufs.Keys == pools[pos].bufs.Keys
    ensures HomeOk(home, pools[pos := p'], freeBuf)
  {
    var pools' := pools[pos := p'];
    forall c, b | 0 <= c < CLASSES ensures b in pools'[c].bufs <==> b in home && home[b] == c {
      assert b in pools[c].bufs <==> b in home && home[b] == c;
      assert b in p'.bufs.Keys <==> b in pools[pos].bufs.Keys;
    }
  }

  // ---------- blocks ----------

  lemma HomeTake(home: map<nat, int>, pools: seq<Pool>, freeBuf: seq<nat>, pos: nat)
    requires HomeOk(home, pools, freeBuf) && |freeBuf| > 0 && pos < CLASSES
    ensures var b, p := freeBuf[|freeBuf| - 1], pools[pos];
      && b in home && b % BLOCK == 0 && b !in p.bufs
      && forall fr :: HomeOk(home[b := pos], pools[pos := WithFree(p, b, fr)], freeBuf[..|freeBuf| - 1])
  {
    var n := |freeBuf| - 1;
    var b, p := freeBuf[n], pools[pos];
    assert freeBuf == freeBuf[..n] + [b];
    assert b in freeBuf;
    forall fr ensures HomeOk(home[b := pos], pools[pos := WithFree(p, b, fr)], freeBuf[..n]) {
      HomeWith(home, pools, freeBuf, freeBuf[..n], pos, b, WithFree(p, b, fr));
    }
  }

  lemma HomeWith(home: map<nat, int>, pools: seq<Pool>, freeBuf: seq<nat>, freeBuf': seq<nat>, pos: nat, b: nat,
      p': Pool)
    requires HomeOk(home, pools, freeBuf) && pos < CLASSES && b % BLOCK == 0
    requires b !in home || home[b] == FREE
    requires p'.bufs.Keys == pools[pos].bufs.Keys + {b}
    requires Distinct(freeBuf') && forall x :: x in freeBuf' <==> x in freeBuf && x != b
    ensures HomeOk(home[b := pos], pools[pos := p'], freeBuf')
  {
    var pools', home' := pools[pos := p'], home[b := pos];
    forall c, x | 0 <= c < CLASSES ensures x in pools'[c].bufs <==> x in home' && home'[x] == c {
      assert x in pools[c].bufs <==> x in home && home[x] == c;
      assert x in p'.bufs.Keys <==> x in pools[pos].bufs.Keys || x == b;
    }
  }

  lemma HomeNew(home: map<nat, int>, pools: seq<Pool>, freeBuf: seq<nat>, pos: nat, b: nat)
    requires HomeOk(home, pools, freeBuf) && b % BLOCK == 0 && b !in home && pos < CLASSES
    ensures b !in pools[pos].bufs
    ensures forall fr :: HomeOk(home[b := pos], pools[pos := WithFree(pools[pos], b, fr)], freeBuf)
  {
    forall fr ensures HomeOk(home[b := pos], pools[pos := WithFree(pools[pos], b, fr)], freeBuf) {
      HomeWith(home, pools, freeBuf, freeBuf, pos, b, WithFree(pools[pos], b, fr));
    }
  }

  lemma HomeLeave(home: map<nat, int>, pools: seq<Pool>, freeBuf: seq<nat>, pos: nat, b: nat)
    requires HomeOk(home, pools, freeBuf) && pos < CLASSES && b in pools[pos].bufs
    ensures b in home
    ensures HomeOk(home - {b}, pools[pos := BlockRemoved(pools[pos], b)], freeBuf)
    ensures HomeOk(home[b := FREE], pools[pos := BlockRemoved(pools[pos], b)], freeBuf + [b])
  {
    var pools' := pools[pos := BlockRemoved(pools[pos], b)];
    var home', home'' := home - {b}, home[b := FREE];
    forall c, x | 0 <= c < CLASSES
      ensures x in pools'[c].bufs <==> x in home' && home'[x] == c
      ensures x in pools'[c].bufs <==> x in home'' && home''[x] == c
    {
      assert x in pools[c].bufs <==> x in home && home[x] == c;
    }
    assert b !in freeBuf;
    forall x ensures x in freeBuf + [b] <==> x in home'' && home''[x] == FREE {
      assert x in freeBuf <==> x in home && home[x] == FREE;
    }
  }

  lemma LessBlock(home: map<nat, int>, blocks: set<nat>, b: nat)
    requires home.Keys == blocks && b in home
    ensures (home - {b}).Keys == blocks - {b} && BLOCK * |blocks - {b}| == BLOCK * |blocks| - BLOCK
  {
  }

  lemma SameBlocks(home: map<nat, int>, blocks: set<nat>, b: nat)
    requires home.Keys == blocks && b in home
    ensures home[b := FREE].Keys == blocks
  {
  }

  // ---------- used memory ----------

  ghost predicate SameUsers(holder: seq<map<nat, int>>, holder': seq<map<nat, int>>) {
    |holder| == |holder'| && forall c :: 0 <= c < |holder| ==> Users(holder[c]) == Users(holder'[c])
  }

  ghost predicate StatsKept(locals: map<ThreadId, Local>, locals': map<ThreadId, Local>) {
    locals'.Keys == locals.Keys && forall t :: t in locals ==> locals'[t].memStat == locals[t].memStat
  }

  /** The thread's caches of the other classes stay as they are. */
  /** Only buffer b of class pos has changed. */
  ghost predicate OnlyBuffer(ps: seq<Pool>, ps': seq<Pool>, pos: nat, b: nat) {
    && pos < |ps| == |ps'| && ps' == ps[pos := ps'[pos]] && ps'[pos].size == ps[pos].size
    && ps'[pos].bufs.Keys == ps[pos].bufs.Keys && b in ps[pos].bufs
    && forall x :: x in ps[pos].bufs && x != b ==> ps'[pos].bufs[x] == ps[pos].bufs[x]
  }

  lemma OnlyThen(ps: seq<Pool>, ps': seq<Pool>, ps'': seq<Pool>, pos: nat, b: nat)
    requires OnlyBuffer(ps, ps', pos, b) && OnlyBuffer(ps', ps'', pos, b)
    ensures OnlyBuffer(ps, ps'', pos, b)
  {
  }

  lemma OnlySame(ps: seq<Pool>, pos: nat, b: nat)
    requires pos < |ps| && b in ps[pos].bufs
    ensures OnlyBuffer(ps, ps, pos, b)
  {
  }

  lemma OnlyFree(ps: seq<Pool>, pos: nat, b: nat, fr: seq<nat>)
    requires pos < |ps| && b in ps[pos].bufs
    ensures var ps' := ps[pos := WithFree(ps[pos], b, fr)];
      OnlyBuffer(ps, ps', pos, b) && ps'[pos].bufs[b] == fr
  {
  }

  /** No buffer of the pool has only free elements: those go back to the other classes. */
  ghost predicate NoneFull(p: Pool) {
    p.size > 0 && forall b :: b in p.bufs ==> |p.bufs[b]| < Slots(p.size)
  }

  lemma NoneFullBut(ps: seq<Pool>, ps': seq<Pool>, pos: nat, b: nat)
    requires OnlyBuffer(ps, ps', pos, b) && NoneFull(ps[pos]) && |ps'[pos].bufs[b]| < Slots(ps[pos].size)
    ensures NoneFull(ps'[pos])
  {
  }

  lemma NoneFullRemoved(ps: seq<Pool>, ps': seq<Pool>, pos: nat, b: nat)
    requires OnlyBuffer(ps, ps', pos, b) && NoneFull(ps[pos])
    ensures NoneFull(BlockRemoved(ps'[pos], b))
  {
  }

  /** The pool got new buffers only after the ones it had were used up, and only as many as were needed. */
  ghost predicate GrewForNeed(p: Pool, p': Pool) {
    && p'.size == p.size && p.bufs.Keys <= p'.bufs.Keys
    && (p'.bufs.Keys != p.bufs.Keys ==>
          && (forall x :: x in p.bufs ==> p'.bufs[x] == [])
          && (forall x, y :: x in p'.free && y in p'.free ==> x == y))
  }

  lemma GrewSame(p: Pool)
    ensures GrewForNeed(p, p)
  {
  }

  /** A turn that takes from a buffer with free elements. */
  lemma GrewTaken(p: Pool, ps: seq<Pool>, ps': seq<Pool>, pos: nat, b: nat, out: set<nat>, out': set<nat>)
    requires pos < |ps| && GrewForNeed(p, ps[pos]) && OnlyBuffer(ps, ps', pos, b) && b in ps[pos].free
    requires PoolOk(ps[pos], out) && PoolOk(ps'[pos], out')
    ensures GrewForNeed(p, ps'[pos])
  {
    hide HandedOut;
  }

  /** A turn that allocates a buffer when no other has a free element. */
  lemma GrewNew(p: Pool, q: Pool, b: nat, out: set<nat>)
    requires GrewForNeed(p, q) && PoolOk(q, out) && q.free == {} && b !in q.bufs
    ensures GrewForNeed(p, WithFree(q, b, AllSlots(q.size)))
  {
    hide HandedOut;
  }

  /** Only the cache of thread t for class pos has changed. */
  ghost predicate RestKept(l: map<ThreadId, Local>, l': map<ThreadId, Local>, t: ThreadId, pos: nat) {
    && t in l && l'.Keys == l.Keys && |l[t].vct| == |l'[t].vct|
    && (forall c :: 0 <= c < |l[t].vct| && c != pos ==> l'[t].vct[c] == l[t].vct[c])
    && (forall u :: u in l && u != t ==> l'[u] == l[u])
  }

  ghost predicate OthersSame(l: map<ThreadId, Local>, l': map<ThreadId, Local>, t: ThreadId) {
    l'.Keys == l.Keys && forall u :: u in l && u != t ==> l'[u] == l[u]
  }

  lemma OthersToo(l: map<ThreadId, Local>, l': map<ThreadId, Local>, l'': map<ThreadId, Local>, t: ThreadId, pos: nat)
    requires OthersSame(l, l', t) && RestKept(l', l'', t, pos)
    ensures OthersSame(l, l'', t)
  {
  }

  lemma RestSame(l: map<ThreadId, Local>, t: ThreadId, pos: nat)
    requires t in l
    ensures RestKept(l, l, t, pos)
  {
  }

  lemma RestThen(l: map<ThreadId, Local>, l': map<ThreadId, Local>, l'': map<ThreadId, Local>, t: ThreadId, pos: nat)
    requires RestKept(l, l', t, pos) && RestKept(l', l'', t, pos)
    ensures RestKept(l, l'', t, pos)
  {
  }

  /** The class sizes of all elements in users' hands. */
  ghost function UsedBytes(holder: seq<map<nat, int>>, n: nat): int
    requires n <= |holder| == CLASSES
  {
    if n == 0 then 0 else UsedBytes(holder, n - 1) + SIZES[n - 1] * |Users(holder[n - 1])|
  }

  lemma {:induction false} UsedBytesSame(holder: seq<map<nat, int>>, holder': seq<map<nat, int>>, n: nat)
    requires n <= |holder| == CLASSES && SameUsers(holder, holder')
    ensures UsedBytes(holder', n) == UsedBytes(holder, n)
  {
    if n > 0 { UsedBytesSame(holder, holder', n - 1); }
  }

  lemma {:induction false} UsedBytesChange(holder: seq<map<nat, int>>, pos: nat, h': map<nat, int>, n: nat)
    requires n <= |holder| == CLASSES && pos < CLASSES
    ensures UsedBytes(holder[pos := h'], n)
            == UsedBytes(holder, n)
               + if pos < n then SIZES[pos] * |Users(h')| - SIZES[pos] * |Users(holder[pos])| else 0
  {
    if n > 0 { UsedBytesChange(holder, pos, h', n - 1); }
  }

  /** What the running threads add to the used memory. */
  ghost function SumStat(running: seq<ThreadId>, locals: map<ThreadId, Local>): int
    requires forall i :: 0 <= i < |running| ==> running[i] in locals
  {
    if running == [] then 0 else SumStat(running[..|running| - 1], locals) + locals[running[|running| - 1]].memStat
  }

  lemma {:induction false} SumStatFrame(running: seq<ThreadId>, locals: map<ThreadId, Local>,
      locals': map<ThreadId, Local>)
    requires forall i :: 0 <= i < |running| ==> running[i] in locals && running[i] in locals'
    requires forall i :: 0 <= i < |running| ==> locals[running[i]].memStat == locals'[running[i]].memStat
    ensures SumStat(running, locals') == SumStat(running, locals)
  {
    if running != [] { SumStatFrame(running[..|running| - 1], locals, locals'); }
  }

  lemma {:induction false} SumStatChange(running: seq<ThreadId>, locals: map<ThreadId, Local>,
      locals': map<ThreadId, Local>, k: nat)
    requires Distinct(running) && k < |running|
    requires forall i :: 0 <= i < |running| ==> running[i] in locals && running[i] in locals'
    requires forall i :: 0 <= i < |running| && i != k ==> locals[running[i]].memStat == locals'[running[i]].memStat
    ensures SumStat(running, locals') ==
        SumStat(running, locals) + locals'[running[k]].memStat - locals[running[k]].memStat
  {
    var n := |running| - 1;
    if k < n {
      SumStatChange(running[..n], locals, locals', k);
    } else {
      SumStatFrame(running[..n], locals, locals');
    }
  }

  lemma {:induction false} SumStatWithout(running: seq<ThreadId>, locals: map<ThreadId, Local>, k: nat)
    requires k < |running| && forall i :: 0 <= i < |running| ==> running[i] in locals
    ensures forall i :: 0 <= i < |Without(running, k)| ==> Without(running, k)[i] in locals
    ensures SumStat(Without(running, k), locals) == SumStat(running, locals) - locals[running[k]].memStat
  {
    var n := |running| - 1;
    var w := Without(running, k);
    if k < n {
      SumStatWithout(running[..n], locals, k);
      assert w[..n - 1] == Without(running[..n], k);
    } else {
      assert w == running[..n];
    }
  }

  lemma {:induction false} BeyondAll(s: set<nat>) returns (m: nat)
    ensures forall x :: x in s ==> x < m
  {
    if s == {} {
      m := 0;
    } else {
      var y :| y in s;
      var r := BeyondAll(s - {y});
      m := if y < r then r else y + 1;
      assert forall x :: x in s ==> x == y || x in s - {y};
    }
  }

  /** There is always room for another block. */
  lemma FreshBlock(blocks: set<nat>) returns (b: nat)
    ensures b % BLOCK == 0 && b !in blocks
  {
    var m := BeyondAll(blocks);
    b := BLOCK * m;
    assert b >= m;
  }

  // ---------- the cache ----------

  class CachePool {
    var pools: seq<Pool>
    var vctFreeBuf: seq<nat>
    var blocks: set<nat>          // the blocks the C library has handed out
    var szMemAllocated: int
    var szMemused: int
    var running: seq<ThreadId>    // the threads with a cache
    var locals: map<ThreadId, Local>
    ghost var home: map<nat, int>
    ghost var holder: seq<map<nat, int>>

    ghost predicate Structure()
      reads this
    {
      && ClassesOk(pools, holder, locals) && HomeOk(home, pools, vctFreeBuf)
      && home.Keys == blocks && szMemAllocated == BLOCK * |blocks|
      && Distinct(running) && (forall t :: t in locals <==> t in running)
    }

    ghost predicate Valid()
      reads this
    {
      && Structure() && szMemused + SumStat(running, locals) == UsedBytes(holder, CLASSES)
      && forall c :: 0 <= c < |pools| ==> NoneFull(pools[c])
    }

    constructor ()
      ensures Valid() && running == [] && szMemAllocated == 0
      ensures |holder| == CLASSES && forall c :: 0 <= c < CLASSES ==> Users(holder[c]) == {}
    {
      hide UsedBytes, NoneFull;
      pools := seq(CLASSES, c requires 0 <= c < CLASSES => Pool(SIZES[c], map[], {}));
      vctFreeBuf, blocks, szMemAllocated, szMemused := [], {}, 0, 0;
      running, locals := [], map[];
      home := map[];
      holder := seq(CLASSES, c => map[]);
      NoUsedBytes(seq(CLASSES, c => map[]), CLASSES);
      EmptyPools(seq(CLASSES, c requires 0 <= c < CLASSES => Pool(SIZES[c], map[], {})), seq(CLASSES, c => map[]));
    }

    /** LocalMap's constructor. */
    method StartThread(t: ThreadId)
      requires Valid() && t !in locals
      modifies this`running, this`locals
      ensures Valid() && locals == old(locals)[t := Local(seq(CLASSES, c => []), 0)] && running == old(running) + [t]
    {
      hide ClassOk, ClassesOk, HomeOk, UsedBytes, SumStat, Distinct, NoneFull;
      ThreadAdded(pools, holder, locals, t);
      SumStatAdded(running, locals, t, Local(seq(CLASSES, c => []), 0));
      locals := locals[t := Local(seq(CLASSES, c => []), 0)];
      running := running + [t];
    }

    /** LocalMap's destructor: everything the thread caches goes back, and its share of the used memory is
        carried over to the pool. */
    method StopThread(t: ThreadId)
      requires Valid() && t in locals
      modifies this
      ensures Valid() && locals == old(locals) - {t} && SameUsers(old(holder), holder)
    {
      hide ClassesOk, HomeOk, UsedBytes, SumStat, SameUsers, StatsKept, Distinct, Without, NoneFull;
      HolderCount(pools, holder, locals);
      ReleaseAll(t);
      AfterBatch(old(holder), holder, old(locals), locals, running);
      ThreadRemoved(pools, holder, locals, t);
      var j := 0;
      while running[j] != t
        invariant j < |running| && t in running[j..]
        decreases |running| - j
      {
        j := j + 1;
      }
      SumStatRemoved(running, locals, t, j);
      szMemused := szMemused + locals[t].memStat;
      running := Without(running, j);
      locals := locals - {t};
    }

    method ReleaseAll(t: ThreadId)
      requires Structure() && t in locals
      modifies this`pools, this`locals, this`holder, this`vctFreeBuf, this`blocks, this`szMemAllocated, this`home
      ensures Structure() && SameUsers(old(holder), holder) && StatsKept(old(locals), locals)
      ensures t in locals && |locals[t].vct| == CLASSES && forall c :: 0 <= c < CLASSES ==> locals[t].vct[c] == []
      ensures |pools| == |old(pools)| == CLASSES && OthersSame(old(locals), locals, t)
      ensures (forall c :: 0 <= c < CLASSES ==> NoneFull(old(pools)[c])) ==>
                forall c :: 0 <= c < CLASSES ==> NoneFull(pools[c])
    {
      hide Structure, SameUsers, StatsKept, RestKept, NoneFull;
      NoChange(holder, locals);
      assert OthersSame(locals, locals, t);
      hide OthersSame;
      CacheThere(t, 0);
      var i := 0;
      while i < CLASSES
        invariant i <= CLASSES && Structure()
        invariant SameUsers(old(holder), holder) && StatsKept(old(locals), locals)
        invariant t in locals && |locals[t].vct| == CLASSES
        invariant forall c :: 0 <= c < i ==> locals[t].vct[c] == []
        invariant |pools| == |old(pools)| == CLASSES && OthersSame(old(locals), locals, t)
        invariant (forall c :: 0 <= c < CLASSES ==> NoneFull(old(pools)[c])) ==>
                    forall c :: 0 <= c < CLASSES ==> NoneFull(pools[c])
      {
        ghost var h, l := holder, locals;
        CacheThere(t, i);
        BatchRelease(i, t, true);
        OthersToo(old(locals), l, locals, t, i);
        Then(old(holder), h, holder, old(locals), l, locals);
        RestMeans(l, locals, t, i);
        i := i + 1;
      }
    }

    /** CachePool::GetMemoryUsed: exactly the class sizes of the elements in users' hands. */
    method GetMemoryUsed() returns (total: int)
      requires Valid()
      ensures |holder| == CLASSES && total == UsedBytes(holder, CLASSES)
    {
      hide ClassesOk, HomeOk, UsedBytes;
      total := szMemused;
      var i := 0;
      while i < |running|
        invariant i <= |running| && total == szMemused + SumStat(running[..i], locals)
      {
        assert running[..i + 1][..i] == running[..i];
        total := total + locals[running[i]].memStat;
        i := i + 1;
      }
      assert running[..i] == running;
      HolderCount(pools, holder, locals);
    }

    /** CachePool::Apply for a size that is not a large block. */
    method Apply(t: ThreadId, bufSize: nat) returns (buf: nat)
      requires Valid() && t in locals && 0 < bufSize <= 16384
      modifies this
      ensures Valid() && locals.Keys == old(locals).Keys && |holder| == |old(holder)| == CLASSES
      ensures var pos := CalcBufSize(bufSize);
        && 0 <= pos < CLASSES && bufSize <= SIZES[pos]
        && (forall c :: 0 <= c < CLASSES ==> buf !in Users(old(holder)[c]))
        && (forall c :: 0 <= c < CLASSES ==>
              Users(holder[c]) == if c == pos then Users(old(holder)[c]) + {buf} else Users(old(holder)[c]))
    {
      hide Valid;
      ClassFits(bufSize);
      buf := Pop(t, CalcBufSize(bufSize));
    }

    /** CachePool::Release with the size the block was applied for, or any size of the same class. */
    method Release(t: ThreadId, buf: nat, bufSize: nat)
      requires Valid() && t in locals && 0 < bufSize <= 16384 && |holder| == CLASSES
      requires 0 <= CalcBufSize(bufSize) < CLASSES && buf in Users(holder[CalcBufSize(bufSize)])
      modifies this
      ensures Valid() && locals.Keys == old(locals).Keys && |holder| == CLASSES
      ensures forall c :: 0 <= c < CLASSES ==>
                Users(holder[c])
                == if c == CalcBufSize(bufSize) then Users(old(holder)[c]) - {buf} else Users(old(holder)[c])
    {
      hide Valid;
      Push(t, buf, CalcBufSize(bufSize));
    }

    /** One turn of the loop of Buffer::Apply. */
    method TakeElement(pos: nat, t: ThreadId, b: nat)
      requires Structure() && pos < CLASSES && t in locals && pos < |pools| && b in pools[pos].free
      requires |locals[t].vct| == CLASSES && |locals[t].vct[pos]| < Capacity(pos)
      modifies this`pools, this`locals, this`holder
      ensures Structure() && SameUsers(old(holder), holder) && StatsKept(old(locals), locals)
      ensures CacheAt(t, pos) && |locals[t].vct[pos]| == |old(locals)[t].vct[pos]| + 1
      ensures RestKept(old(locals), locals, t, pos)
      ensures OnlyBuffer(old(pools), pools, pos, b) && |pools[pos].bufs[b]| < |old(pools)[pos].bufs[b]|
    {
      hide ClassOk, HomeOk, Addr, WithFree, Users, OnlyBuffer;
      ghost var h := holder[pos];
      var p := pools[pos];
      assert ClassOk(pos, p, h, locals);
      TakeStep(pos, p, h, locals, t, b);
      var n := |p.bufs[b]| - 1;
      var bys := Addr(b, p.size, p.bufs[b][n]);
      var p' := WithFree(p, b, p.bufs[b][..n]);
      SameKeys(p, b, p.bufs[b][..n]);
      ClassSize(pos, p, h, locals);
      HomeSame(home, pools, vctFreeBuf, pos, p');
      OnlyFree(pools, pos, b, p.bufs[b][..n]);
      ClassesStep(pools, holder, locals, pos, p', h[bys := t], t, locals[t].vct[pos] + [bys]);
      locals := WithCache(locals, t, pos, locals[t].vct[pos] + [bys]);
      pools := pools[pos := p'];
      holder := holder[pos := h[bys := t]];
    }

    /** One turn of the loop of Buffer::Release: the element at i goes back to its buffer. */
    method PutElement(pos: nat, t: ThreadId, i: nat)
      requires Structure() && pos < CLASSES && t in locals && |locals[t].vct| == CLASSES && i < |locals[t].vct[pos]|
      modifies this`pools, this`locals, this`holder
      ensures Structure() && SameUsers(old(holder), holder) && StatsKept(old(locals), locals)
      ensures CacheAt(t, pos) && locals[t].vct[pos] == Without(old(locals)[t].vct[pos], i)
      ensures pools[pos].bufs.Keys == old(pools[pos]).bufs.Keys && RestKept(old(locals), locals, t, pos)
      ensures OnlyBuffer(old(pools), pools, pos, BaseOf(old(locals)[t].vct[pos][i]))
    {
      hide ClassOk, HomeOk, BaseOf, IndexOf, WithFree, Users, Without, OnlyBuffer;
      ghost var h := holder[pos];
      var p, vct := pools[pos], locals[t].vct[pos];
      assert ClassOk(pos, p, h, locals);
      PutStep(pos, p, h, locals, t, i);
      var bys := vct[i];
      var fr := p.bufs[BaseOf(bys)] + [IndexOf(bys, p.size)];
      var p' := WithFree(p, BaseOf(bys), fr);
      SameKeys(p, BaseOf(bys), fr);
      ClassSize(pos, p, h, locals);
      HomeSame(home, pools, vctFreeBuf, pos, p');
      OnlyFree(pools, pos, BaseOf(bys), fr);
      ClassesStep(pools, holder, locals, pos, p', h - {bys}, t, Without(vct, i));
      locals := WithCache(locals, t, pos, Without(vct, i));
      pools := pools[pos := p'];
      holder := holder[pos := h - {bys}];
    }

    /** The block of a new buffer: the last free one, or a new one from the C library. */
    method TakeBlock(pos: nat) returns (b: nat)
      requires Structure() && pos < CLASSES
      modifies this`vctFreeBuf, this`blocks, this`szMemAllocated, this`home
      ensures |pools| == CLASSES && b !in pools[pos].bufs && b % BLOCK == 0
      ensures forall fr :: HomeOk(home, pools[pos := WithFree(pools[pos], b, fr)], vctFreeBuf)
      ensures home.Keys == blocks && szMemAllocated == BLOCK * |blocks|
      ensures if old(vctFreeBuf) != [] then blocks == old(blocks) && old(vctFreeBuf) == vctFreeBuf + [b]
              else blocks == old(blocks) + {b} && b !in old(blocks) && vctFreeBuf == []
    {
      hide ClassesOk, HomeOk, WithFree, Distinct;
      ClassAt(pools, holder, locals, pos);
      if |vctFreeBuf| > 0 {
        b := vctFreeBuf[|vctFreeBuf| - 1];
        HomeTake(home, pools, vctFreeBuf, pos);
        vctFreeBuf := vctFreeBuf[..|vctFreeBuf| - 1];
      } else {
        ghost var fresh_ := FreshBlock(blocks);
        b :| b % BLOCK == 0 && b !in blocks;
        HomeNew(home, pools, vctFreeBuf, pos, b);
        MoreBlock(blocks, b);
        blocks := blocks + {b};
        szMemAllocated := szMemAllocated + BLOCK;
      }
      home := home[b := pos];
    }

    /** CachePool::AllocateBuffer and its entry in the pool. */
    method AllocateBuffer(pos: nat) returns (b: nat)
      requires Structure() && pos < CLASSES
      modifies this`pools, this`vctFreeBuf, this`blocks, this`szMemAllocated, this`home
      ensures Structure() && |pools| == CLASSES && b in pools[pos].free && pools[pos].size > 0
      ensures pos < |old(pools)| && old(pools)[pos].size > 0 && b !in old(pools)[pos].bufs
      ensures pools == old(pools)[pos := WithFree(old(pools)[pos], b, AllSlots(old(pools)[pos].size))]
      ensures if old(vctFreeBuf) != [] then blocks == old(blocks) && old(vctFreeBuf) == vctFreeBuf + [b]
              else blocks == old(blocks) + {b} && b !in old(blocks) && vctFreeBuf == []
    {
      hide ClassOk, ClassesOk, HomeOk, WithFree, AllSlots, Distinct;
      ClassAt(pools, holder, locals, pos);
      var p := pools[pos];
      b := TakeBlock(pos);
      NewBuffer(pos, p, holder[pos], locals, b);
      PoolStep(pools, holder, locals, pos, WithFree(p, b, AllSlots(p.size)));
      pools := pools[pos := WithFree(p, b, AllSlots(p.size))];
    }

    /** CachePool::RecycleBuffer for a buffer whose elements are all free. */
    method RecycleBuffer(pos: nat, b: nat)
      requires Structure() && pos < CLASSES && pos < |pools| && b in pools[pos].bufs && pools[pos].size > 0
      requires |pools[pos].bufs[b]| == Slots(pools[pos].size)
      modifies this`pools, this`vctFreeBuf, this`blocks, this`szMemAllocated, this`home
      ensures Structure() && |pools| == CLASSES && pools[pos].size > 0
      ensures pools == old(pools)[pos := BlockRemoved(old(pools)[pos], b)]
      ensures if |old(vctFreeBuf)| > MAX_FREE_BUFFERS then blocks == old(blocks) - {b} && vctFreeBuf == old(vctFreeBuf)
              else blocks == old(blocks) && vctFreeBuf == old(vctFreeBuf) + [b]
    {
      hide ClassOk, ClassesOk, HomeOk, BlockRemoved, Distinct;
      ClassAt(pools, holder, locals, pos);
      var p := pools[pos];
      FullLeaves(pos, p, holder[pos], locals, b);
      PoolStep(pools, holder, locals, pos, BlockRemoved(p, b));
      HomeLeave(home, pools, vctFreeBuf, pos, b);
      pools := pools[pos := BlockRemoved(p, b)];
      if |vctFreeBuf| > MAX_FREE_BUFFERS {
        LessBlock(home, blocks, b);
        blocks := blocks - {b};
        szMemAllocated := szMemAllocated - BLOCK;
        home := home - {b};
      } else {
        SameBlocks(home, blocks, b);
        vctFreeBuf := vctFreeBuf + [b];
        home := home[b := FREE];
      }
    }

    /** Buffer::Apply: from the buffer into the cache, up to three quarters of the cache's capacity. */
    method BufferApply(pos: nat, t: ThreadId, b: nat)
      requires Structure() && CacheAt(t, pos) && b in pools[pos].free && |locals[t].vct[pos]| < FillTo(pos)
      modifies this`pools, this`locals, this`holder
      ensures Structure() && SameUsers(old(holder), holder) && StatsKept(old(locals), locals)
      ensures CacheAt(t, pos) && |old(locals)[t].vct[pos]| < |locals[t].vct[pos]| <= FillTo(pos)
      ensures |locals[t].vct[pos]| < FillTo(pos) ==> b !in pools[pos].free
      ensures RestKept(old(locals), locals, t, pos)
      ensures OnlyBuffer(old(pools), pools, pos, b) && |pools[pos].bufs[b]| < |old(pools)[pos].bufs[b]|
    {
      FreeIsBuffer(pos, t);
      hide Structure, SameUsers, StatsKept, OnlyBuffer, RestKept;
      NoChange(holder, locals);
      OnlySame(pools, pos, b);
      RestSame(locals, t, pos);
      while |locals[t].vct[pos]| < FillTo(pos) && b in pools[pos].free
        invariant Structure() && SameUsers(old(holder), holder) && StatsKept(old(locals), locals)
        invariant CacheAt(t, pos) && |old(locals)[t].vct[pos]| <= |locals[t].vct[pos]| <= FillTo(pos)
        invariant |locals[t].vct[pos]| == |old(locals)[t].vct[pos]| ==> b in pools[pos].free && pools == old(pools)
        invariant OnlyBuffer(old(pools), pools, pos, b) && RestKept(old(locals), locals, t, pos)
        invariant b in pools[pos].bufs && b in old(pools)[pos].bufs && |pools[pos].bufs[b]| <= |old(pools)[pos].bufs[b]|
        invariant |locals[t].vct[pos]| > |old(locals)[t].vct[pos]| ==>
            |pools[pos].bufs[b]| < |old(pools)[pos].bufs[b]|
        decreases FillTo(pos) - |locals[t].vct[pos]|
      {
        ghost var h, l, ps := holder, locals, pools;
        TakeElement(pos, t, b);
        Then(old(holder), h, holder, old(locals), l, locals);
        RestThen(old(locals), l, locals, t, pos);
        OnlyThen(old(pools), ps, pools, pos, b);
        BufferThere(old(pools), pools, pos, b);
      }
    }

    /** One turn of the loop of BufferPool::Apply: a buffer with free elements, a new one if there is none. */
    method FillTurn(pos: nat, t: ThreadId, ghost q: Pool)
      requires Structure() && CacheAt(t, pos) && |locals[t].vct[pos]| < FillTo(pos) && GrewForNeed(q, pools[pos])
      modifies this`pools, this`locals, this`holder, this`vctFreeBuf, this`blocks, this`szMemAllocated, this`home
      ensures Structure() && SameUsers(old(holder), holder) && StatsKept(old(locals), locals)
      ensures CacheAt(t, pos) && |old(locals)[t].vct[pos]| < |locals[t].vct[pos]| <= FillTo(pos)
      ensures RestKept(old(locals), locals, t, pos) && |old(pools)| == CLASSES && pools == old(pools)[pos := pools[pos]]
      ensures GrewForNeed(q, pools[pos]) && (NoneFull(old(pools)[pos]) ==> NoneFull(pools[pos]))
    {
      FreeIsBuffer(pos, t);
      hide Structure, SameUsers, StatsKept, OnlyBuffer, RestKept, GrewForNeed, NoneFull, WithFree, AllSlots;
      ghost var ps := pools;
      ghost var out := PoolAt(pos, t);
      var b: nat;
      if pools[pos].free == {} {
        b := AllocateBuffer(pos);
        SizeKept(ps[pos], b);
        GrewNew(q, ps[pos], b, out);
      } else {
        b :| b in pools[pos].free;
      }
      ghost var qs := pools;
      out := PoolAt(pos, t);
      BufferApply(pos, t, b);
      ghost var out' := PoolAt(pos, t);
      OnlyClass(qs, pools, pos, b);
      GrewTaken(q, qs, pools, pos, b, out, out');
      if NoneFull(ps[pos]) { NoneFullTaken(ps[pos], qs, pools, pos, b, out); }
    }

    /** BufferPool::Apply through CachePool::BatchApply: fills a thread's cache. */
    method BatchApply(pos: nat, t: ThreadId)
      requires Structure() && CacheAt(t, pos) && |locals[t].vct[pos]| < FillTo(pos)
      modifies this`pools, this`locals, this`holder, this`vctFreeBuf, this`blocks, this`szMemAllocated, this`home
      ensures Structure() && SameUsers(old(holder), holder) && StatsKept(old(locals), locals)
      ensures CacheAt(t, pos) && |locals[t].vct[pos]| == FillTo(pos) && RestKept(old(locals), locals, t, pos)
      ensures |old(pools)| == CLASSES && pools == old(pools)[pos := pools[pos]]
      ensures GrewForNeed(old(pools)[pos], pools[pos]) && (NoneFull(old(pools)[pos]) ==> NoneFull(pools[pos]))
    {
      hide Structure, SameUsers, StatsKept, RestKept, GrewForNeed, NoneFull;
      NoChange(holder, locals);
      RestSame(locals, t, pos);
      GrewSame(pools[pos]);
      while |locals[t].vct[pos]| < FillTo(pos)
        invariant Structure() && SameUsers(old(holder), holder) && StatsKept(old(locals), locals)
        invariant CacheAt(t, pos) && |locals[t].vct[pos]| <= FillTo(pos) && RestKept(old(locals), locals, t, pos)
        invariant pools == old(pools)[pos := pools[pos]]
        invariant GrewForNeed(old(pools)[pos], pools[pos]) && (NoneFull(old(pools)[pos]) ==> NoneFull(pools[pos]))
        decreases FillTo(pos) - |locals[t].vct[pos]|
      {
        ghost var h, l := holder, locals;
        FillTurn(pos, t, old(pools)[pos]);
        Then(old(holder), h, holder, old(locals), l, locals);
        RestThen(old(locals), l, locals, t, pos);
      }
    }

    /** Buffer::Release: the cached elements of this buffer go back to it, newest first, until the cache is
        down to the size asked for. */
    method BufferRelease(pos: nat, t: ThreadId, b: nat, cap: nat)
      requires Structure() && CacheAt(t, pos) && cap < |locals[t].vct[pos]| && BaseOf(locals[t].vct[pos][0]) == b
      modifies this`pools, this`locals, this`holder
      ensures Structure() && SameUsers(old(holder), holder) && StatsKept(old(locals), locals)
      ensures CacheAt(t, pos) && cap <= |locals[t].vct[pos]| < |old(locals)[t].vct[pos]|
      ensures pools[pos].bufs.Keys == old(pools)[pos].bufs.Keys && RestKept(old(locals), locals, t, pos)
      ensures OnlyBuffer(old(pools), pools, pos, b)
      ensures |locals[t].vct[pos]| > cap ==> forall a :: a in locals[t].vct[pos] ==> BaseOf(a) != b
    {
      HasBuffer(pos, t);
      hide Structure, SameUsers, StatsKept, BaseOf, RestKept, OnlyBuffer;
      RestSame(locals, t, pos);
      OnlySame(pools, pos, b);
      NoChange(holder, locals);
      var i := |locals[t].vct[pos]| - 1;
      while i >= 0
        invariant Structure() && SameUsers(old(holder), holder) && StatsKept(old(locals), locals)
        invariant CacheAt(t, pos) && -1 <= i < |locals[t].vct[pos]| && cap < |locals[t].vct[pos]|
        invariant locals[t].vct[pos] == old(locals)[t].vct[pos] || |locals[t].vct[pos]| < |old(locals)[t].vct[pos]|
        invariant i == -1 ==> |locals[t].vct[pos]| < |old(locals)[t].vct[pos]|
        invariant pools[pos].bufs.Keys == old(pools)[pos].bufs.Keys && RestKept(old(locals), locals, t, pos)
        invariant OnlyBuffer(old(pools), pools, pos, b)
        invariant forall j :: i < j < |locals[t].vct[pos]| ==> BaseOf(locals[t].vct[pos][j]) != b
      {
        if BaseOf(locals[t].vct[pos][i]) == b {
          ghost var h, l, ps := holder, locals, pools;
          PutElement(pos, t, i);
          OnlyThen(old(pools), ps, pools, pos, b);
          Then(old(holder), h, holder, old(locals), l, locals);
          RestThen(old(locals), l, locals, t, pos);
          if |locals[t].vct[pos]| == cap {
            break;
          }
        }
        i := i - 1;
      }
    }

    /** BufferPool::Release through CachePool::BatchRelease: empties a thread's cache, or down to a quarter. */
    method BatchRelease(pos: nat, t: ThreadId, bAll: bool)
      requires Structure() && CacheAt(t, pos)
      modifies this`pools, this`locals, this`holder, this`vctFreeBuf, this`blocks, this`szMemAllocated, this`home
      ensures Structure() && SameUsers(old(holder), holder) && StatsKept(old(locals), locals)
      ensures CacheAt(t, pos)
      ensures var sz := if bAll then 0 else Capacity(pos) / 4;
        if |old(locals)[t].vct[pos]| <= sz then locals == old(locals) else |locals[t].vct[pos]| == sz
      ensures RestKept(old(locals), locals, t, pos)
      ensures |old(pools)| == CLASSES && pools == old(pools)[pos := pools[pos]]
      ensures NoneFull(old(pools)[pos]) ==> NoneFull(pools[pos])
    {
      hide Structure, SameUsers, StatsKept, RestKept, OnlyBuffer, NoneFull, BlockRemoved;
      RestSame(locals, t, pos);
      NoChange(holder, locals);
      var sz := if bAll then 0 else Capacity(pos) / 4;
      while |locals[t].vct[pos]| > sz
        invariant Structure() && SameUsers(old(holder), holder) && StatsKept(old(locals), locals)
        invariant CacheAt(t, pos)
        invariant locals == old(locals) || |locals[t].vct[pos]| >= sz
        invariant |old(locals)[t].vct[pos]| <= sz ==> locals == old(locals)
        invariant RestKept(old(locals), locals, t, pos)
        invariant pools == old(pools)[pos := pools[pos]]
        invariant NoneFull(old(pools)[pos]) ==> NoneFull(pools[pos])
        decreases |locals[t].vct[pos]|
      {
        ghost var h, l, ps := holder, locals, pools;
        var buf := BaseOf(locals[t].vct[pos][0]);
        HasBuffer(pos, t);
        BufferRelease(pos, t, buf, sz);
        Then(old(holder), h, holder, old(locals), l, locals);
        RestThen(old(locals), l, locals, t, pos);
        OnlyClass(ps, pools, pos, buf);
        NotOverfull(pos, t, buf);
        if NoneFull(ps[pos]) { NoneFullRemoved(ps, pools, pos, buf); }
        if |pools[pos].bufs[buf]| == Slots(pools[pos].size) {
          RecycleBuffer(pos, buf);
        } else if NoneFull(ps[pos]) {
          NoneFullBut(ps, pools, pos, buf);
        }
      }
    }

    /** LocalMap::Pop: an element nobody has, from the thread's cache, which is filled first if it is empty. */
    method Pop(t: ThreadId, pos: nat) returns (buf: nat)
      requires Valid() && pos < CLASSES && t in locals
      modifies this
      ensures Valid() && running == old(running) && locals.Keys == old(locals).Keys
      ensures |holder| == |old(holder)| == CLASSES
      ensures var was, now := old(locals)[t].vct[pos], locals[t].vct[pos];
        if was == [] then |now| == FillTo(pos) - 1 else was == now + [buf] && pools == old(pools)
      ensures RestKept(old(locals), locals, t, pos)
      ensures |pools| == |old(pools)| == CLASSES && GrewForNeed(old(pools)[pos], pools[pos])
      ensures forall c :: 0 <= c < CLASSES ==> buf !in Users(old(holder)[c])
      ensures forall c :: 0 <= c < CLASSES ==>
                Users(holder[c]) == if c == pos then Users(old(holder)[c]) + {buf} else Users(old(holder)[c])
    {
      hide ClassesOk, HomeOk, Users, UsedBytes, SumStat, Distinct, ClassOk, NoneFull, GrewForNeed, RestKept;
      CacheThere(t, pos);
      if |locals[t].vct[pos]| == 0 {
        BatchApply(pos, t);
        AfterBatch(old(holder), holder, old(locals), locals, running);
      } else {
        NoChange(holder, locals);
        GrewSame(pools[pos]);
        RestSame(locals, t, pos);
      }
      ghost var l := locals;
      buf := FromCache(t, pos);
      RestThen(old(locals), l, locals, t, pos);
    }

    /** vector::back and pop_back. */
    method FromCache(t: ThreadId, pos: nat) returns (buf: nat)
      requires Valid() && CacheAt(t, pos) && |locals[t].vct[pos]| > 0
      modifies this`locals, this`holder
      ensures Valid() && locals.Keys == old(locals).Keys
      ensures CacheAt(t, pos) && old(locals)[t].vct[pos] == locals[t].vct[pos] + [buf]
      ensures RestKept(old(locals), locals, t, pos)
      ensures |holder| == |old(holder)| == CLASSES
      ensures forall c :: 0 <= c < CLASSES ==> buf !in Users(old(holder)[c])
      ensures forall c :: 0 <= c < CLASSES ==>
                Users(holder[c]) == if c == pos then Users(old(holder)[c]) + {buf} else Users(old(holder)[c])
    {
      hide ClassesOk, HomeOk, Users, UsedBytes, SumStat, Distinct, ClassOk, WithCache, Charge, NoneFull, RestKept;
      ghost var h, l := holder, locals;
      CacheThere(t, pos);
      var vctByte := locals[t].vct[pos];
      var n := |vctByte| - 1;
      buf := vctByte[n];
      PopStep(pos, pools[pos], h[pos], l, t);
      MoveOk(pools, h, l, pos, h[pos][buf := USER], t, vctByte[..n], SIZES[pos]);
      UniqueHolder(pools, h, l, home, vctFreeBuf, pos, buf);
      NotUsers(h, pos, buf);
      CountUp(h[pos], buf, h[pos][buf := USER], SIZES[pos]);
      MoveAccounted(running, l, t, pos, vctByte[..n], h, h[pos][buf := USER], SIZES[pos]);
      CacheNow(l, t, pos, vctByte[..n], SIZES[pos]);
      locals := Charge(WithCache(locals, t, pos, vctByte[..n]), t, SIZES[pos]);
      holder := h[pos := h[pos][buf := USER]];
    }

    /** LocalMap::Push: a user's element goes into the thread's cache, which first gives back three quarters
        if it is full. */
    method Push(t: ThreadId, buf: nat, pos: nat)
      requires Valid() && pos < CLASSES && t in locals && |holder| == CLASSES && buf in Users(holder[pos])
      modifies this
      ensures Valid() && running == old(running) && locals.Keys == old(locals).Keys
      ensures |holder| == CLASSES
      ensures var was, now := old(locals)[t].vct[pos], locals[t].vct[pos];
        if |was| >= Capacity(pos) then |now| == Capacity(pos) / 4 + 1 else now == was + [buf] && pools == old(pools)
      ensures RestKept(old(locals), locals, t, pos)
      ensures forall c :: 0 <= c < CLASSES ==>
                Users(holder[c]) == if c == pos then Users(old(holder)[c]) - {buf} else Users(old(holder)[c])
    {
      hide ClassesOk, HomeOk, Users, UsedBytes, SumStat, Distinct, ClassOk, NoneFull, GrewForNeed, RestKept;
      CacheThere(t, pos);
      if |locals[t].vct[pos]| >= Capacity(pos) {
        BatchRelease(pos, t, false);
        AfterBatch(old(holder), holder, old(locals), locals, running);
      } else {
        NoChange(holder, locals);
        RestSame(locals, t, pos);
      }
      ghost var l := locals;
      IntoCache(t, buf, pos);
      RestThen(old(locals), l, locals, t, pos);
    }

    /** vector::push_back. */
    method IntoCache(t: ThreadId, buf: nat, pos: nat)
      requires Valid() && CacheAt(t, pos) && |locals[t].vct[pos]| < Capacity(pos) && |holder| == CLASSES &&
          buf in Users(holder[pos])
      modifies this`locals, this`holder
      ensures Valid() && locals.Keys == old(locals).Keys
      ensures CacheAt(t, pos) && locals[t].vct[pos] == old(locals)[t].vct[pos] + [buf]
      ensures RestKept(old(locals), locals, t, pos)
      ensures |holder| == CLASSES
      ensures forall c :: 0 <= c < CLASSES ==>
                Users(holder[c]) == if c == pos then Users(old(holder)[c]) - {buf} else Users(old(holder)[c])
    {
      hide ClassesOk, HomeOk, Users, UsedBytes, SumStat, Distinct, ClassOk, WithCache, Charge, Capacity, NoneFull,
          RestKept;
      ghost var h, l := holder, locals;
      CacheThere(t, pos);
      var vctByte := locals[t].vct[pos];
      IntoFacts(pools, h, l, running, pos, t, buf);
      CacheNow(l, t, pos, vctByte + [buf], -(SIZES[pos] as int));
      locals := Charge(WithCache(locals, t, pos, vctByte + [buf]), t, -(SIZES[pos] as int));
      holder := h[pos := h[pos][buf := t]];
    }

    lemma CacheThere(t: ThreadId, pos: nat)
      requires Structure() && pos < CLASSES && t in locals
      ensures CacheAt(t, pos) && |holder| == CLASSES && |locals[t].vct[pos]| <= Capacity(pos)
      ensures ClassOk(pos, pools[pos], holder[pos], locals)
      ensures forall u :: u in running ==> u in locals
    {
      assert ClassOk(pos, pools[pos], holder[pos], locals);
      assert LocalOk(holder[pos], locals, t, pos);
    }

    ghost predicate CacheAt(t: ThreadId, pos: nat)
      reads this
    {
      pos < CLASSES && t in locals && |locals[t].vct| == CLASSES && |pools| == CLASSES && pools[pos].size > 0
    }

    /** The elements of a class that are handed out. */
    lemma PoolAt(pos: nat, t: ThreadId) returns (out: set<nat>)
      requires Structure() && CacheAt(t, pos)
      ensures PoolOk(pools[pos], out)
    {
      assert ClassOk(pos, pools[pos], holder[pos], locals);
      out := holder[pos].Keys;
    }

    lemma FreeIsBuffer(pos: nat, t: ThreadId)
      requires Structure() && CacheAt(t, pos)
      ensures forall b :: b in pools[pos].free ==> b in pools[pos].bufs && pools[pos].bufs[b] != []
    {
      var out := PoolAt(pos, t);
    }

    lemma NotOverfull(pos: nat, t: ThreadId, b: nat)
      requires Structure() && CacheAt(t, pos) && b in pools[pos].bufs
      ensures |pools[pos].bufs[b]| <= Slots(pools[pos].size)
    {
      var out := PoolAt(pos, t);
      FewFree(pools[pos].bufs[b], Slots(pools[pos].size));
    }

    /** A cached element's buffer is in the pool. */
    lemma HasBuffer(pos: nat, t: ThreadId)
      requires Structure() && CacheAt(t, pos) && |locals[t].vct[pos]| > 0
      ensures BaseOf(locals[t].vct[pos][0]) in pools[pos].bufs
    {
      assert ClassOk(pos, pools[pos], holder[pos], locals);
      assert LocalOk(holder[pos], locals, t, pos);
      var a := locals[t].vct[pos][0];
      assert a in locals[t].vct[pos];
      assert a in holder[pos].Keys;
    }
  }

  lemma CacheNow(l: map<ThreadId, Local>, t: ThreadId, pos: nat, vct: seq<nat>, n: int)
    requires t in l && pos < |l[t].vct|
    ensures var l' := Charge(WithCache(l, t, pos, vct), t, n);
      t in l' && |l'[t].vct| == |l[t].vct| && l'[t].vct[pos] == vct && RestKept(l, l', t, pos)
  {
  }

  lemma MoreBlock(blocks: set<nat>, b: nat)
    requires b !in blocks
    ensures BLOCK * |blocks + {b}| == BLOCK * |blocks| + BLOCK
  {
  }

  lemma SizeKept(p: Pool, b: nat)
    requires p.size > 0
    ensures WithFree(p, b, AllSlots(p.size)).size == p.size
  {
  }

  lemma OnlyClass(ps: seq<Pool>, ps': seq<Pool>, pos: nat, b: nat)
    requires OnlyBuffer(ps, ps', pos, b)
    ensures pos < |ps| == |ps'| && ps' == ps[pos := ps'[pos]] && ps'[pos].size == ps[pos].size
    ensures b in ps[pos].bufs && b in ps'[pos].bufs
  {
  }

  lemma BufferThere(ps: seq<Pool>, ps': seq<Pool>, pos: nat, b: nat)
    requires OnlyBuffer(ps, ps', pos, b)
    ensures b in ps[pos].bufs && b in ps'[pos].bufs
  {
  }

  /** Free numbers are distinct numbers of slots. */
  lemma FewFree(fr: seq<nat>, n: nat)
    requires Distinct(fr) && forall i :: 0 <= i < |fr| ==> fr[i] < n
    ensures |fr| <= n
  {
    CardSeq(fr);
    SubsetCard(Elems(fr), IdRun(0, n));
  }

  /** Taking from a buffer, old or new, leaves no full one. */
  lemma NoneFullTaken(p: Pool, qs: seq<Pool>, ps: seq<Pool>, pos: nat, b: nat, out: set<nat>)
    requires OnlyBuffer(qs, ps, pos, b) && NoneFull(p) && PoolOk(qs[pos], out)
    requires |ps[pos].bufs[b]| < |qs[pos].bufs[b]|
    requires qs[pos] == p || qs[pos] == WithFree(p, b, AllSlots(p.size))
    ensures NoneFull(ps[pos])
  {
    hide HandedOut;
  }

  // ---------- threads ----------

  lemma {:induction false} NoUsedBytes(holder: seq<map<nat, int>>, n: nat)
    requires n <= |holder| == CLASSES && forall c :: 0 <= c < CLASSES ==> holder[c] == map[]
    ensures UsedBytes(holder, n) == 0
  {
    if n > 0 {
      NoUsedBytes(holder, n - 1);
      assert Users(holder[n - 1]) == {};
    }
  }

  lemma EmptyPools(pools: seq<Pool>, holder: seq<map<nat, int>>)
    requires |pools| == |holder| == CLASSES
    requires forall c :: 0 <= c < CLASSES ==> pools[c] == Pool(SIZES[c], map[], {}) && holder[c] == map[]
    ensures ClassesOk(pools, holder, map[]) && HomeOk(map[], pools, [])
    ensures forall c :: 0 <= c < CLASSES ==> NoneFull(pools[c])
  {
    forall c | 0 <= c < CLASSES ensures ClassOk(c, pools[c], holder[c], map[]) {
      SizeOf(c);
      EmptyPool(pools[c].size);
    }
    forall c | 0 <= c < CLASSES ensures NoneFull(pools[c]) { SizeOf(c); }
  }

  lemma EmptyPool(size: nat)
    requires 0 < size <= 16384
    ensures PoolOk(Pool(size, map[], {}), {})
  {
    assert Slots(size) > 0;
  }

  lemma SumStatAdded(running: seq<ThreadId>, locals: map<ThreadId, Local>, t: ThreadId, l: Local)
    requires Distinct(running) && t !in running && (forall i :: 0 <= i < |running| ==> running[i] in locals)
    ensures forall i :: 0 <= i < |running + [t]| ==> (running + [t])[i] in locals[t := l]
    ensures Distinct(running + [t]) && SumStat(running + [t], locals[t := l]) == SumStat(running, locals) + l.memStat
  {
    assert (running + [t])[..|running|] == running;
    SumStatFrame(running, locals, locals[t := l]);
  }

  lemma SumStatRemoved(running: seq<ThreadId>, locals: map<ThreadId, Local>, t: ThreadId, k: nat)
    requires Distinct(running) && k < |running| && running[k] == t && (forall u :: u in locals <==> u in running)
    ensures var w := Without(running, k); var locals' := locals - {t};
      && Distinct(w) && (forall u :: u in locals' <==> u in w)
      && SumStat(w, locals') + locals[t].memStat == SumStat(running, locals)
  {
    WithoutMembers(running, k);
    SumStatWithout(running, locals, k);
    SumStatFrame(Without(running, k), locals, locals - {t});
  }

  lemma ThreadAdded(pools: seq<Pool>, holder: seq<map<nat, int>>, locals: map<ThreadId, Local>, t: ThreadId)
    requires ClassesOk(pools, holder, locals) && t !in locals
    ensures ClassesOk(pools, holder, locals[t := Local(seq(CLASSES, c => []), 0)])
  {
    hide PoolOk;
    var locals' := locals[t := Local(seq(CLASSES, c => []), 0)];
    forall c | 0 <= c < CLASSES ensures ClassOk(c, pools[c], holder[c], locals') {
      assert ClassOk(c, pools[c], holder[c], locals);
      forall u | u in locals' ensures LocalOk(holder[c], locals', u, c) {
        if u != t { assert LocalOk(holder[c], locals, u, c); }
      }
    }
  }

  lemma ThreadRemoved(pools: seq<Pool>, holder: seq<map<nat, int>>, locals: map<ThreadId, Local>, t: ThreadId)
    requires ClassesOk(pools, holder, locals) && t in locals
    requires forall c :: 0 <= c < CLASSES ==> locals[t].vct[c] == []
    ensures ClassesOk(pools, holder, locals - {t})
  {
    hide PoolOk;
    var locals' := locals - {t};
    forall c | 0 <= c < CLASSES ensures ClassOk(c, pools[c], holder[c], locals') {
      assert ClassOk(c, pools[c], holder[c], locals);
      assert LocalOk(holder[c], locals, t, c);
      forall a | a in holder[c] ensures holder[c][a] != t {
        assert a in locals[t].vct[c] <==> holder[c][a] == t;
      }
      forall u | u in locals' ensures LocalOk(holder[c], locals', u, c) {
        assert LocalOk(holder[c], locals, u, c);
      }
    }
  }

  lemma RestMeans(l: map<ThreadId, Local>, l': map<ThreadId, Local>, t: ThreadId, pos: nat)
    requires RestKept(l, l', t, pos)
    ensures t in l && t in l' && |l[t].vct| == |l'[t].vct|
    ensures forall c :: 0 <= c < |l[t].vct| && c != pos ==> l'[t].vct[c] == l[t].vct[c]
  {
  }

  lemma HolderCount(pools: seq<Pool>, holder: seq<map<nat, int>>, locals: map<ThreadId, Local>)
    requires ClassesOk(pools, holder, locals)
    ensures |holder| == CLASSES
  {
  }

  // ---------- handing out and taking back ----------

  /** The thread's share of the used memory changes by d. */
  function Charge(locals: map<ThreadId, Local>, t: ThreadId, d: int): map<ThreadId, Local>
    requires t in locals
  {
    locals[t := locals[t].(memStat := locals[t].memStat + d)]
  }

  lemma Charged(pools: seq<Pool>, holder: seq<map<nat, int>>, locals: map<ThreadId, Local>, t: ThreadId, d: int)
    requires ClassesOk(pools, holder, locals) && t in locals
    ensures ClassesOk(pools, holder, Charge(locals, t, d))
  {
    hide PoolOk, CacheOk;
    var locals' := Charge(locals, t, d);
    forall c | 0 <= c < CLASSES ensures ClassOk(c, pools[c], holder[c], locals') {
      assert ClassOk(c, pools[c], holder[c], locals);
      forall u | u in locals' ensures LocalOk(holder[c], locals', u, c) {
        assert LocalOk(holder[c], locals, u, c);
      }
    }
  }

  lemma MoveOk(pools: seq<Pool>, h: seq<map<nat, int>>, l: map<ThreadId, Local>, pos: nat, h': map<nat, int>,
               t: ThreadId, vct: seq<nat>, d: int)
    requires ClassesOk(pools, h, l) && pos < CLASSES && t in l && |l[t].vct| == CLASSES
    requires ClassOk(pos, pools[pos], h', WithCache(l, t, pos, vct))
    ensures ClassesOk(pools, h[pos := h'], Charge(WithCache(l, t, pos, vct), t, d))
  {
    ClassesStep(pools, h, l, pos, pools[pos], h', t, vct);
    assert pools[pos := pools[pos]] == pools;
    hide ClassesOk;
    Charged(pools, h[pos := h'], WithCache(l, t, pos, vct), t, d);
  }

  lemma NotUsers(h: seq<map<nat, int>>, pos: nat, a: nat)
    requires |h| == CLASSES && pos < CLASSES && a !in Users(h[pos])
    requires forall c :: 0 <= c < CLASSES && c != pos ==> a !in h[c]
    ensures forall c :: 0 <= c < CLASSES ==> a !in Users(h[c])
  {
  }

  lemma CountUp(h: map<nat, int>, a: nat, h': map<nat, int>, size: nat)
    requires a !in Users(h) && Users(h') == Users(h) + {a}
    ensures size * |Users(h')| == size * |Users(h)| + size
  {
    assert |Users(h')| == |Users(h)| + 1;
  }

  lemma CountDown(h: map<nat, int>, a: nat, h': map<nat, int>, size: nat)
    requires a in Users(h) && Users(h') == Users(h) - {a}
    ensures size * |Users(h')| == size * |Users(h)| - size
  {
    assert |Users(h')| == |Users(h)| - 1;
  }

  lemma PopStep(pos: nat, p: Pool, h: map<nat, int>, locals: map<ThreadId, Local>, t: ThreadId)
    requires pos < CLASSES && ClassOk(pos, p, h, locals) && t in locals
    requires |locals[t].vct| == CLASSES && |locals[t].vct[pos]| > 0
    ensures var n := |locals[t].vct[pos]| - 1; var a := locals[t].vct[pos][n];
      && a in h && h[a] == t
      && ClassOk(pos, p, h[a := USER], WithCache(locals, t, pos, locals[t].vct[pos][..n]))
      && Users(h[a := USER]) == Users(h) + {a} && a !in Users(h)
  {
    hide PoolOk;
    assert LocalOk(h, locals, t, pos);
    var vct := locals[t].vct[pos];
    var n := |vct| - 1;
    var a := vct[n];
    assert vct == vct[..n] + [a];
    assert a in vct;
    var h', locals' := h[a := USER], WithCache(locals, t, pos, vct[..n]);
    assert h'.Keys == h.Keys;
    forall u | u in locals' ensures LocalOk(h', locals', u, pos) {
      assert LocalOk(h, locals, u, pos);
    }
  }

  lemma PushStep(pos: nat, p: Pool, h: map<nat, int>, locals: map<ThreadId, Local>, t: ThreadId, a: nat)
    requires pos < CLASSES && ClassOk(pos, p, h, locals) && t in locals && a in Users(h)
    requires |locals[t].vct| == CLASSES && |locals[t].vct[pos]| < Capacity(pos)
    ensures ClassOk(pos, p, h[a := t], WithCache(locals, t, pos, locals[t].vct[pos] + [a]))
    ensures Users(h[a := t]) == Users(h) - {a}
  {
    hide PoolOk;
    var vct := locals[t].vct[pos];
    var h', locals' := h[a := t], WithCache(locals, t, pos, vct + [a]);
    assert h'.Keys == h.Keys;
    forall u | u in locals' ensures LocalOk(h', locals', u, pos) {
      assert LocalOk(h, locals, u, pos);
    }
  }

  /** An element outside the free lists belongs to one class only. */
  lemma UniqueHolder(pools: seq<Pool>, holder: seq<map<nat, int>>, locals: map<ThreadId, Local>,
                     home: map<nat, int>, freeBuf: seq<nat>, pos: nat, a: nat)
    requires ClassesOk(pools, holder, locals) && HomeOk(home, pools, freeBuf) && pos < CLASSES && a in holder[pos]
    ensures forall c :: 0 <= c < CLASSES && c != pos ==> a !in holder[c]
  {
    forall c | 0 <= c < CLASSES && a in holder[c] ensures c == pos {
      HolderHome(pools, holder, locals, home, freeBuf, c, a);
      HolderHome(pools, holder, locals, home, freeBuf, pos, a);
    }
  }

  lemma HolderHome(pools: seq<Pool>, holder: seq<map<nat, int>>, locals: map<ThreadId, Local>,
                   home: map<nat, int>, freeBuf: seq<nat>, c: nat, a: nat)
    requires ClassesOk(pools, holder, locals) && HomeOk(home, pools, freeBuf) && c < CLASSES && a in holder[c]
    ensures BaseOf(a) in home && home[BaseOf(a)] == c && pools[c].size == SIZES[c] > 0 && HandedOut(pools[c], a)
  {
    assert ClassOk(c, pools[c], holder[c], locals);
    assert a in holder[c].Keys;
    assert BaseOf(a) in pools[c].bufs;
  }

  /** Different elements outside the free lists do not overlap in memory, whatever their classes. */
  lemma NoOverlap(pools: seq<Pool>, holder: seq<map<nat, int>>, locals: map<ThreadId, Local>,
                  home: map<nat, int>, freeBuf: seq<nat>, c: nat, a: nat, d: nat, e: nat)
    requires ClassesOk(pools, holder, locals) && HomeOk(home, pools, freeBuf)
    requires c < CLASSES && d < CLASSES && a in holder[c] && e in holder[d] && a < e
    ensures a + SIZES[c] <= e
  {
    HolderHome(pools, holder, locals, home, freeBuf, c, a);
    HolderHome(pools, holder, locals, home, freeBuf, d, e);
    InBlock(a, SIZES[c]);
    InBlock(e, SIZES[d]);
    if BaseOf(a) == BaseOf(e) {
      GridAddr(a, SIZES[c]);
      GridAddr(e, SIZES[c]);
      GridOrder(BaseOf(a), SIZES[c], IndexOf(a, SIZES[c]), IndexOf(e, SIZES[c]));
    } else {
      BlocksApart(a, e);
    }
  }

  lemma InBlock(a: nat, size: nat)
    requires size > 0 && OnGrid(a, size)
    ensures a + size <= BaseOf(a) + BLOCK
  {
    var i, n := IndexOf(a, size), Slots(size);
    assert BLOCK == n * size + BLOCK % size;
    MulMono(size, i + 1, n);
    assert size * (i + 1) == size * i + size;
  }

  lemma BlocksApart(a: nat, e: nat)
    requires a < e && BaseOf(a) != BaseOf(e)
    ensures BaseOf(a) + BLOCK <= BaseOf(e)
  {
  }

  lemma GridOrder(base: nat, size: nat, i: nat, j: nat)
    requires Addr(base, size, i) < Addr(base, size, j)
    ensures Addr(base, size, i) + size <= Addr(base, size, j)
  {
    if i >= j { MulMono(size, j, i); } else { MulMono(size, i + 1, j); }
    assert size * (i + 1) == size * i + size;
  }

  /** Moving elements between caches and buffers uses no memory. */
  lemma AfterBatch(h: seq<map<nat, int>>, h': seq<map<nat, int>>, l: map<ThreadId, Local>, l': map<ThreadId, Local>,
      running: seq<ThreadId>)
    requires |h| == CLASSES && (SameUsers(h, h') || h' == h) && (StatsKept(l, l') || l' == l)
    requires forall i :: 0 <= i < |running| ==> running[i] in l
    ensures forall i :: 0 <= i < |running| ==> running[i] in l'
    ensures |h'| == CLASSES && UsedBytes(h', CLASSES) == UsedBytes(h, CLASSES) &&
        SumStat(running, l') == SumStat(running, l)
    ensures SameUsers(h, h')
  {
    NoChange(h, l);
    UsedBytesSame(h, h', CLASSES);
    SumStatFrame(running, l, l');
  }

  /** An element that changes hands is charged once. */
  lemma Accounted(running: seq<ThreadId>, l: map<ThreadId, Local>, l': map<ThreadId, Local>, t: ThreadId,
                  h: seq<map<nat, int>>, h': seq<map<nat, int>>, pos: nat, d: int)
    requires Distinct(running) && t in running && pos < CLASSES && |h| == CLASSES
    requires forall i :: 0 <= i < |running| ==> running[i] in l && running[i] in l'
    requires forall u :: u in l && u in l' && u != t ==> l'[u] == l[u]
    requires t in l && t in l' && l'[t].memStat == l[t].memStat + d
    requires |h'| == CLASSES && h' == h[pos := h'[pos]]
    requires SIZES[pos] * |Users(h'[pos])| == SIZES[pos] * |Users(h[pos])| + d
    ensures SumStat(running, l') == SumStat(running, l) + d
    ensures UsedBytes(h', CLASSES) == UsedBytes(h, CLASSES) + d
  {
    var k :| 0 <= k < |running| && running[k] == t;
    SumStatChange(running, l, l', k);
    UsedBytesChange(h, pos, h'[pos], CLASSES);
  }

  /** The same for the step of one thread. */
  lemma MoveAccounted(running: seq<ThreadId>, l: map<ThreadId, Local>, t: ThreadId, pos: nat, vct: seq<nat>,
                      h: seq<map<nat, int>>, hp: map<nat, int>, d: int)
    requires Distinct(running) && t in running && t in l && pos < CLASSES && |l[t].vct| == CLASSES && |h| == CLASSES
    requires forall u :: u in running ==> u in l
    requires SIZES[pos] * |Users(hp)| == SIZES[pos] * |Users(h[pos])| + d
    ensures t in WithCache(l, t, pos, vct)
    ensures var l', h' := Charge(WithCache(l, t, pos, vct), t, d), h[pos := hp];
      && l'.Keys == l.Keys && (forall u :: u in l' <==> u in l) && |h'| == CLASSES
      && SumStat(running, l') == SumStat(running, l) + d && UsedBytes(h', CLASSES) == UsedBytes(h, CLASSES) + d
      && forall c :: 0 <= c < CLASSES ==> Users(h'[c]) == if c == pos then Users(hp) else Users(h[c])
  {
    hide Users, UsedBytes, SumStat, Distinct;
    Accounted(running, l, Charge(WithCache(l, t, pos, vct), t, d), t, h, h[pos := hp], pos, d);
  }

  /** An element that goes into a cache. */
  lemma IntoFacts(pools: seq<Pool>, h: seq<map<nat, int>>, l: map<ThreadId, Local>, running: seq<ThreadId>,
                  pos: nat, t: ThreadId, buf: nat)
    requires ClassesOk(pools, h, l) && |pools| == |h| == CLASSES && pos < CLASSES && ClassOk(pos, pools[pos], h[pos], l)
    requires t in l && |l[t].vct| == CLASSES && |l[t].vct[pos]| < Capacity(pos) && buf in Users(h[pos])
    requires Distinct(running) && t in running && forall u :: u in running ==> u in l
    ensures t in WithCache(l, t, pos, l[t].vct[pos] + [buf])
    ensures var l' := Charge(WithCache(l, t, pos, l[t].vct[pos] + [buf]), t, -(SIZES[pos] as int));
            var hp: map<nat, int> := h[pos][buf := t];
            var h' := h[pos := hp];
      && ClassesOk(pools, h', l') && l'.Keys == l.Keys && (forall u :: u in l' <==> u in l)
      && SumStat(running, l') == SumStat(running, l) - SIZES[pos]
      && UsedBytes(h', CLASSES) == UsedBytes(h, CLASSES) - SIZES[pos]
      && forall c :: 0 <= c < CLASSES ==> Users(h'[c]) == if c == pos then Users(h[c]) - {buf} else Users(h[c])
  {
    hide ClassesOk, Users, UsedBytes, SumStat, Distinct, ClassOk, WithCache, Charge, Capacity;
    var d := SIZES[pos] as int;
    PushStep(pos, pools[pos], h[pos], l, t, buf);
    MoveOk(pools, h, l, pos, h[pos][buf := t], t, l[t].vct[pos] + [buf], -d);
    CountDown(h[pos], buf, h[pos][buf := t], SIZES[pos]);
    MoveAccounted(running, l, t, pos, l[t].vct[pos] + [buf], h, h[pos][buf := t], -d);
  }

  /** Up to where a cache is filled. */
  function FillTo(pos: nat): (n: nat)
    requires pos < CLASSES
    ensures 0 < n <= Capacity(pos)
  {
    Capacity(pos) - Capacity(pos) / 4
  }

  lemma NoChange(holder: seq<map<nat, int>>, locals: map<ThreadId, Local>)
    ensures SameUsers(holder, holder) && StatsKept(locals, locals)
  {
  }

  lemma Then(h: seq<map<nat, int>>, h': seq<map<nat, int>>, h'': seq<map<nat, int>>,
             l: map<ThreadId, Local>, l': map<ThreadId, Local>, l'': map<ThreadId, Local>)
    ensures SameUsers(h, h') && SameUsers(h', h'') ==> SameUsers(h, h'')
    ensures StatsKept(l, l') && StatsKept(l', l'') ==> StatsKept(l, l'')
  {
    hide Users;
  }

  lemma SameKeys(p: Pool, b: nat, fr: seq<nat>)
    requires b in p.bufs
    ensures WithFree(p, b, fr).bufs.Keys == p.bufs.Keys && WithFree(p, b, fr).size == p.size
  {
  }
}
