/** The greedy cut of an overlong page into chunks (src/core/BranchPage.cpp:266-291,
    src/core/LeafPage.cpp:453-521).

    A page is cut by two running lengths at once: the committed length `c` and the temporary length `t`
    of its records.  A branch page has one length; for it both sequences are the same. */
module GreedySplit {

  /** The sum of s[a..b]. */
  function Part(s: seq<nat>, a: nat, b: nat): nat
    requires b <= |s|
  {
    if b <= a then 0 else Part(s, a, b - 1) + s[b - 1]
  }

  function Sum(s: seq<nat>): nat {
    Part(s, 0, |s|)
  }

  lemma {:induction false} PartSplit(s: seq<nat>, a: nat, b: nat, d: nat)
    requires a <= b <= d <= |s|
    ensures Part(s, a, d) == Part(s, a, b) + Part(s, b, d)
  {
    if b < d { PartSplit(s, a, b, d - 1); }
  }

  /** A partial sum only looks at its own entries. */
  lemma {:induction false} PartFrame(s: seq<nat>, s': seq<nat>, a: nat, b: nat, d: int)
    requires b <= |s| && 0 <= a + d && 0 <= b + d <= |s'|
    requires forall i :: a <= i < b ==> s[i] == s'[i + d]
    ensures Part(s, a, b) == Part(s', a + d, b + d)
  {
    if a < b { PartFrame(s, s', a, b - 1, d); }
  }

  lemma PartPrefix(s: seq<nat>, s': seq<nat>, a: nat, b: nat)
    requires b <= |s| && s <= s'
    ensures Part(s, a, b) == Part(s', a, b)
  {
    PartFrame(s, s', a, b, 0);
  }

  lemma SumConcat(a: seq<nat>, b: seq<nat>)
    ensures Sum(a + b) == Sum(a) + Sum(b)
  {
    PartSplit(a + b, 0, |a|, |a + b|);
    PartFrame(a, a + b, 0, |a|, 0);
    PartFrame(b, a + b, 0, |b|, |a|);
  }

  lemma SumSlice(s: seq<nat>, a: nat, b: nat)
    requires a <= b <= |s|
    ensures Sum(s[a..b]) == Part(s, a, b)
  {
    PartFrame(s[a..b], s, 0, b - a, a);
  }

  /** The two lengths that govern a split: the page capacity and the load factor's share of it. */
  datatype Limits = Limits(max: nat, limit: nat)

  predicate WithinMax(c: seq<nat>, t: seq<nat>, a: nat, b: nat, l: Limits)
    requires b <= |c| == |t|
  {
    Part(c, a, b) <= l.max && Part(t, a, b) <= l.max
  }

  predicate WithinLimit(c: seq<nat>, t: seq<nat>, a: nat, b: nat, l: Limits)
    requires b <= |c| == |t|
  {
    Part(c, a, b) <= l.limit && Part(t, a, b) <= l.limit
  }

  /** Entries [a, b) can stand as one page, and without its last entry it was not yet full. */
  predicate Chunk(c: seq<nat>, t: seq<nat>, a: nat, b: nat, l: Limits)
    requires |c| == |t|
  {
    && a < b <= |c|
    && WithinMax(c, t, a, b, l)
    && WithinLimit(c, t, a, b - 1, l)
  }

  /** A chunk that is closed before the end of the page: its last entry made it full, or the entry after
      it would overflow the page. */
  predicate Closed(c: seq<nat>, t: seq<nat>, a: nat, b: nat, l: Limits)
    requires |c| == |t|
  {
    && Chunk(c, t, a, b, l)
    && (WithinLimit(c, t, a, b, l) ==> b < |c| && !WithinMax(c, t, a, b + 1, l))
  }

  function Start(cuts: seq<nat>, j: nat): nat
    requires j <= |cuts|
  {
    if j == 0 then 0 else cuts[j - 1]
  }

  /** The first k chunks are closed. */
  predicate ClosedChunks(c: seq<nat>, t: seq<nat>, cuts: seq<nat>, k: nat, l: Limits)
    requires |c| == |t| && k <= |cuts|
  {
    forall j {:trigger Start(cuts, j)} :: 0 <= j < k ==> Closed(c, t, Start(cuts, j), cuts[j], l)
  }

  /** The cut positions (`vctPos` in the source): all chunks but the last are closed, the last one ends
      the page. */
  predicate Greedy(c: seq<nat>, t: seq<nat>, cuts: seq<nat>, l: Limits)
    requires |c| == |t|
  {
    if cuts == [] then c == []
    else
      var k := |cuts| - 1;
      && ClosedChunks(c, t, cuts, k, l)
      && Chunk(c, t, Start(cuts, k), cuts[k], l)
      && cuts[k] == |c|
  }

  predicate EachFits(c: seq<nat>, t: seq<nat>, m: nat)
    requires |c| == |t|
  {
    forall i :: 0 <= i < |c| ==> c[i] <= m && t[i] <= m
  }

  // ---------- what a greedy cut guarantees ----------

  lemma ChunkAt(c: seq<nat>, t: seq<nat>, cuts: seq<nat>, l: Limits, j: nat)
    requires |c| == |t| && Greedy(c, t, cuts, l) && j < |cuts|
    ensures Chunk(c, t, Start(cuts, j), cuts[j], l)
    ensures j < |cuts| - 1 ==> Closed(c, t, Start(cuts, j), cuts[j], l)
    ensures j == |cuts| - 1 ==> cuts[j] == |c|
  {
  }

  /** The chunks cover the page in order: the cut positions increase strictly from above 0 to the end. */
  lemma {:induction false} CutsIncrease(c: seq<nat>, t: seq<nat>, cuts: seq<nat>, l: Limits, i: nat, j: nat)
    requires |c| == |t| && Greedy(c, t, cuts, l) && i < j < |cuts|
    ensures 0 < cuts[i] < cuts[j] <= |c|
    decreases j
  {
    ChunkAt(c, t, cuts, l, j);
    ChunkAt(c, t, cuts, l, i);
    if i < j - 1 {
      CutsIncrease(c, t, cuts, l, i, j - 1);
    }
  }

  /** One chunk suffices exactly when the whole page fits and was not full before its last entry. */
  lemma OneChunkIff(c: seq<nat>, t: seq<nat>, cuts: seq<nat>, l: Limits)
    requires |c| == |t| > 0 && Greedy(c, t, cuts, l)
    ensures |cuts| == 1 <==> WithinMax(c, t, 0, |c|, l) && WithinLimit(c, t, 0, |c| - 1, l)
  {
    ChunkAt(c, t, cuts, l, 0);
    if |cuts| > 1 {
      CutsIncrease(c, t, cuts, l, 0, |cuts| - 1);
      SameEndMonotone(c, cuts[0], |c| - 1);
      SameEndMonotone(t, cuts[0], |c| - 1);
      SameEndMonotone(c, cuts[0] + 1, |c|);
      SameEndMonotone(t, cuts[0] + 1, |c|);
    }
  }

  lemma SameEndMonotone(s: seq<nat>, b: nat, d: nat)
    requires b <= d <= |s|
    ensures Part(s, 0, b) <= Part(s, 0, d)
  {
    PartSplit(s, 0, b, d);
  }

  /** Every chunk but the last is well filled: past the load limit, or past capacity less one entry. */
  lemma ClosedIsFull(c: seq<nat>, t: seq<nat>, a: nat, b: nat, l: Limits, m: nat)
    requires |c| == |t| && Closed(c, t, a, b, l) && EachFits(c, t, m)
    ensures || Part(c, a, b) > l.limit || Part(t, a, b) > l.limit
            || Part(c, a, b) + m > l.max || Part(t, a, b) + m > l.max
  {
    if b < |c| { assert c[b] <= m && t[b] <= m; }
  }

  /** When two entries always fit below the limits, every chunk but the last holds at least two. */
  lemma ClosedHoldsTwo(c: seq<nat>, t: seq<nat>, a: nat, b: nat, l: Limits, m: nat)
    requires |c| == |t| && Closed(c, t, a, b, l) && EachFits(c, t, m)
    requires m <= l.limit && 2 * m <= l.max
    ensures b >= a + 2
  {
    ClosedIsFull(c, t, a, b, l, m);
    assert Part(c, a, a) == 0 && Part(t, a, a) == 0;
    assert c[a] <= m && t[a] <= m;
  }

  /** The cut positions are determined by the lengths: no other sequence of cuts is greedy. */
  lemma {:induction false} GreedyUnique(c: seq<nat>, t: seq<nat>, u: seq<nat>, v: seq<nat>, l: Limits, j: nat)
    requires |c| == |t| && Greedy(c, t, u, l) && Greedy(c, t, v, l)
    requires j < |u|
    ensures j < |v| && u[j] == v[j]
    decreases j
  {
    if j > 0 {
      GreedyUnique(c, t, u, v, l, j - 1);
      CutsIncrease(c, t, u, l, j - 1, j);
    }
    ChunkAt(c, t, u, l, j);
    assert j < |v|;
    ChunkAt(c, t, v, l, j);
    SameEnd(c, t, Start(u, j), u[j], v[j], l);
    SameEnd(c, t, Start(u, j), v[j], u[j], l);
  }

  lemma SameCuts(c: seq<nat>, t: seq<nat>, u: seq<nat>, v: seq<nat>, l: Limits)
    requires |c| == |t| && Greedy(c, t, u, l) && Greedy(c, t, v, l)
    ensures u == v
  {
    hide Greedy;
    if u != [] { GreedyUnique(c, t, u, v, l, |u| - 1); }
    if v != [] { GreedyUnique(c, t, v, u, l, |v| - 1); }
    forall j | 0 <= j < |u| ensures u[j] == v[j] { GreedyUnique(c, t, u, v, l, j); }
  }

  /** Closed chunks from the start of the page are the first ones of every greedy cut. */
  lemma {:induction false} ClosedPrefix(c: seq<nat>, t: seq<nat>, u: seq<nat>, v: seq<nat>, l: Limits, j: nat)
    requires |c| == |t| && ClosedChunks(c, t, u, |u|, l) && Greedy(c, t, v, l) && j < |u|
    ensures j < |v| && u[j] == v[j]
    decreases j
  {
    assert Closed(c, t, Start(u, j), u[j], l);
    if j > 0 {
      ClosedPrefix(c, t, u, v, l, j - 1);
      ChunkAt(c, t, v, l, j - 1);
    }
    assert j < |v|;
    ChunkAt(c, t, v, l, j);
    SameEnd(c, t, Start(u, j), u[j], v[j], l);
    SameEnd(c, t, Start(u, j), v[j], u[j], l);
  }

  /** A chunk that is closed or ends the page is not a shorter piece of another chunk. */
  lemma SameEnd(c: seq<nat>, t: seq<nat>, a: nat, b: nat, b': nat, l: Limits)
    requires |c| == |t| && Chunk(c, t, a, b, l) && Chunk(c, t, a, b', l)
    requires b == |c| || Closed(c, t, a, b, l)
    ensures b' <= b
  {
    if b < b' {
      PartSplit(c, a, b, b' - 1);
      PartSplit(t, a, b, b' - 1);
      PartSplit(c, a, b + 1, b');
      PartSplit(t, a, b + 1, b');
    }
  }

  /** Chunk facts only look at the entries up to the one after the chunk, so appending keeps them. */
  lemma ClosedAppend(c: seq<nat>, t: seq<nat>, a: nat, b: nat, l: Limits, c': seq<nat>, t': seq<nat>)
    requires |c| == |t| && |c'| == |t'| && Closed(c, t, a, b, l)
    requires c <= c' && t <= t'
    ensures Closed(c', t', a, b, l)
  {
    PartPrefix(c, c', a, b);
    PartPrefix(t, t', a, b);
    if b < |c| {
      PartPrefix(c, c', a, b + 1);
      PartPrefix(t, t', a, b + 1);
    }
    if a < b {
      PartPrefix(c, c', a, b - 1);
      PartPrefix(t, t', a, b - 1);
    }
  }

  lemma ClosedChunksAppend(c: seq<nat>, t: seq<nat>, cuts: seq<nat>, l: Limits, c': seq<nat>, t': seq<nat>)
    requires |c| == |t| && |c'| == |t'| && ClosedChunks(c, t, cuts, |cuts|, l)
    requires c <= c' && t <= t'
    ensures ClosedChunks(c', t', cuts, |cuts|, l)
  {
    forall j | 0 <= j < |cuts| ensures Closed(c', t', Start(cuts, j), cuts[j], l) {
      ClosedAppend(c, t, Start(cuts, j), cuts[j], l, c', t');
    }
  }

  lemma ClosedPush(c: seq<nat>, t: seq<nat>, cuts: seq<nat>, l: Limits, b: nat)
    requires |c| == |t| && ClosedChunks(c, t, cuts, |cuts|, l)
    ensures ClosedChunks(c, t, cuts + [b], |cuts|, l)
    ensures Start(cuts + [b], |cuts|) == Start(cuts, |cuts|)
    ensures Closed(c, t, Start(cuts, |cuts|), b, l) ==> ClosedChunks(c, t, cuts + [b], |cuts| + 1, l)
  {
    var cuts' := cuts + [b];
    forall j | 0 <= j < |cuts| ensures Closed(c, t, Start(cuts', j), cuts'[j], l) {
      assert Start(cuts', j) == Start(cuts, j);
      assert Closed(c, t, Start(cuts, j), cuts[j], l);
    }
  }

  /** A loop that ends right after a cut has every entry in a closed chunk. */
  lemma EndsAfterCut(c: seq<nat>, t: seq<nat>, cuts: seq<nat>, l: Limits)
    requires |c| == |t| && ClosedChunks(c, t, cuts, |cuts|, l)
    requires Start(cuts, |cuts|) <= |c| && Part(t, Start(cuts, |cuts|), |c|) == 0
    requires forall i :: 0 <= i < |t| ==> t[i] > 0
    ensures Greedy(c, t, cuts, l)
  {
    if cuts != [] {
      assert Closed(c, t, Start(cuts, |cuts| - 1), cuts[|cuts| - 1], l);
    }
  }

  /** The chunk lengths recorded next to the cut positions. */
  predicate ChunkLengths(s: seq<nat>, cuts: seq<nat>, lens: seq<int>) {
    && |lens| == |cuts|
    && forall j {:trigger Start(cuts, j)} :: 0 <= j < |cuts| ==>
        cuts[j] <= |s| && lens[j] == Part(s, Start(cuts, j), cuts[j])
  }

  lemma LengthsPush(s: seq<nat>, cuts: seq<nat>, lens: seq<int>, b: nat)
    requires ChunkLengths(s, cuts, lens) && b <= |s|
    ensures ChunkLengths(s, cuts + [b], lens + [Part(s, Start(cuts, |cuts|), b)])
  {
    var cuts' := cuts + [b];
    forall j | 0 <= j < |cuts'| ensures cuts'[j] <= |s| && (lens + [Part(s, Start(cuts, |cuts|), b)])[j] ==
        Part(s, Start(cuts', j), cuts'[j]) {
      assert Start(cuts', j) == Start(cuts, j);
    }
  }

  lemma LengthsAppend(s: seq<nat>, cuts: seq<nat>, lens: seq<int>, s': seq<nat>)
    requires ChunkLengths(s, cuts, lens) && s <= s'
    ensures ChunkLengths(s', cuts, lens)
  {
    forall j | 0 <= j < |cuts|
      ensures cuts[j] <= |s'| && lens[j] == Part(s', Start(cuts, j), cuts[j])
    {
      var a := Start(cuts, j);
      assert cuts[j] <= |s| && lens[j] == Part(s, a, cuts[j]);
      PartPrefix(s, s', a, cuts[j]);
    }
  }

  /** One turn of the cut loop after the entry at `pos` was added: `b` is the position after the cut, if
      the loop cuts here. */
  lemma CutStep(c: seq<nat>, t: seq<nat>, a: nat, pos: nat, l: Limits)
    requires a <= pos < |c| == |t| && l.limit <= l.max && EachFits(c, t, l.max)
    requires WithinLimit(c, t, a, pos, l) && !WithinLimit(c, t, a, pos + 1, l)
    ensures if WithinMax(c, t, a, pos + 1, l) then Closed(c, t, a, pos + 1, l)
            else a < pos && Closed(c, t, a, pos, l)
  {
    if !WithinMax(c, t, a, pos + 1, l) {
      assert c[pos] <= l.max && t[pos] <= l.max;
      assert Part(c, a, pos) > 0 || Part(t, a, pos) > 0;
      PartSplit(c, a, pos - 1, pos);
      PartSplit(t, a, pos - 1, pos);
    }
  }

  // ---------- when the loop ends ----------

  /** The variables of the loop: the position, the running length and the cuts made. */
  datatype CutState = CutState(pos: nat, len: nat, cuts: seq<nat>)

  /** One turn of the loop, for entries of any length. */
  function CutTurn(s: seq<nat>, l: Limits, st: CutState): CutState
    requires st.pos < |s|
  {
    var len := st.len + s[st.pos];
    if len <= l.limit then CutState(st.pos + 1, len, st.cuts)
    else if len <= l.max then CutState(st.pos + 1, 0, st.cuts + [st.pos + 1])
    else CutState(st.pos, 0, st.cuts + [st.pos])
  }

  /** The variables after n turns, or at the end of the loop if it comes before. */
  function CutTurns(s: seq<nat>, l: Limits, n: nat): CutState {
    if n == 0 then CutState(0, 0, [])
    else
      var st := CutTurns(s, l, n - 1);
      if st.pos < |s| then CutTurn(s, l, st) else st
  }

  /** The cuts when the loop has ended after n turns: what is left over is the last chunk. */
  predicate CutsDone(s: seq<nat>, l: Limits, n: nat, cuts: seq<nat>) {
    var st := CutTurns(s, l, n);
    st.pos == |s| && cuts == if st.len > 0 then st.cuts + [st.pos] else st.cuts
  }

  ghost predicate CutsEnd(s: seq<nat>, l: Limits) {
    exists n: nat :: CutTurns(s, l, n).pos >= |s|
  }

  /** The loop ends exactly when every entry fits a page.  It never gets past an entry that does not: it cuts off
      an empty chunk in front of it, again and again. */
  lemma CutsEndIff(s: seq<nat>, l: Limits)
    requires l.limit <= l.max
    ensures CutsEnd(s, l) <==> forall i :: 0 <= i < |s| ==> s[i] <= l.max
  {
    if i :| 0 <= i < |s| && s[i] > l.max {
      forall n: nat ensures CutTurns(s, l, n).pos < |s| { StuckAt(s, l, i, n); }
    } else {
      TurnsLeft(s, l, 2 * |s| + 1);
    }
  }

  lemma {:induction false} StuckAt(s: seq<nat>, l: Limits, i: nat, n: nat)
    requires i < |s| && s[i] > l.max && l.limit <= l.max
    ensures CutTurns(s, l, n).pos <= i
  {
    if n > 0 { StuckAt(s, l, i, n - 1); }
  }

  lemma {:induction false} TurnsLeft(s: seq<nat>, l: Limits, n: nat)
    requires l.limit <= l.max && forall i :: 0 <= i < |s| ==> s[i] <= l.max
    ensures var st := CutTurns(s, l, n);
        st.pos >= |s| || 2 * (|s| - st.pos) + (if st.len > 0 then 1 else 0) + n <= 2 * |s|
  {
    if n > 0 { TurnsLeft(s, l, n - 1); }
  }

  /** The facts the loop keeps after n turns. */
  ghost predicate Cutting(s: seq<nat>, l: Limits, n: nat, pos: nat, len: int, cuts: seq<nat>, lens: seq<int>) {
    && Start(cuts, |cuts|) <= pos <= |s|
    && len == Part(s, Start(cuts, |cuts|), pos) <= l.limit
    && ClosedChunks(s, s, cuts, |cuts|, l) && ChunkLengths(s, cuts, lens)
    && CutTurns(s, l, n) == CutState(pos, len, cuts)
  }

  lemma CuttingStart(s: seq<nat>, l: Limits)
    ensures Cutting(s, l, 0, 0, 0, [], [])
  {
  }

  lemma CuttingRead(s: seq<nat>, l: Limits, n: nat, pos: nat, len: int, cuts: seq<nat>, lens: seq<int>)
    requires Cutting(s, l, n, pos, len, cuts, lens)
    ensures Start(cuts, |cuts|) <= pos <= |s| && 0 <= len <= l.limit
  {
  }

  lemma CuttingKeep(s: seq<nat>, l: Limits, n: nat, pos: nat, len: int, cuts: seq<nat>, lens: seq<int>)
    requires Cutting(s, l, n, pos, len, cuts, lens) && pos < |s| && len + s[pos] <= l.limit
    ensures Cutting(s, l, n + 1, pos + 1, len + s[pos], cuts, lens)
  {
    hide ClosedChunks, ChunkLengths;
  }

  lemma CuttingCut(s: seq<nat>, l: Limits, n: nat, pos: nat, len: int, cuts: seq<nat>, lens: seq<int>)
    requires Cutting(s, l, n, pos, len, cuts, lens) && pos < |s| && len + s[pos] > l.limit
    requires l.limit <= l.max && EachFits(s, s, l.max)
    ensures if len + s[pos] > l.max
            then Start(cuts, |cuts|) < pos && Cutting(s, l, n + 1, pos, 0, cuts + [pos], lens + [len])
            else Cutting(s, l, n + 1, pos + 1, 0, cuts + [pos + 1], lens + [len + s[pos]])
  {
    hide ClosedChunks, ChunkLengths, Closed, EachFits;
    CutStep(s, s, Start(cuts, |cuts|), pos, l);
    var b := if len + s[pos] > l.max then pos else pos + 1;
    ClosedPush(s, s, cuts, l, b);
    LengthsPush(s, cuts, lens, b);
  }

  /** The cut loop of a branch page.  It steps back by one when an entry would overflow the chunk. */
  method BranchCuts(s: seq<nat>, l: Limits) returns (vctPos: seq<nat>, vctLen: seq<int>)
    requires l.limit <= l.max
    requires EachFits(s, s, l.max) && forall i :: 0 <= i < |s| ==> s[i] > 0
    ensures Greedy(s, s, vctPos, l)
    ensures ChunkLengths(s, vctPos, vctLen)
    ensures exists n: nat :: CutsDone(s, l, n, vctPos)
  {
    hide Cutting, EachFits, Greedy, ChunkLengths, CutsDone;
    vctPos, vctLen := [], [];
    var pos, len := 0, 0;
    ghost var n := 0;
    CuttingStart(s, l);
    while pos < |s|
      invariant Start(vctPos, |vctPos|) <= pos <= |s|
      invariant Cutting(s, l, n, pos, len, vctPos, vctLen)
      decreases |s| - Start(vctPos, |vctPos|), |s| - pos
    {
      CuttingRead(s, l, n, pos, len, vctPos, vctLen);
      if len + s[pos] > l.limit {
        CuttingCut(s, l, n, pos, len, vctPos, vctLen);
      } else {
        CuttingKeep(s, l, n, pos, len, vctPos, vctLen);
      }
      n := n + 1;
      len := len + s[pos];
      if len > l.limit {
        if len > l.max {
          len := len - s[pos];
          pos := pos - 1;
        }
        vctPos := vctPos + [pos + 1];
        vctLen := vctLen + [len];
        len := 0;
      }
      pos := pos + 1;
    }
    CuttingRead(s, l, n, pos, len, vctPos, vctLen);
    CuttingEnd(s, l, n, len, vctPos, vctLen);
    if len > 0 {
      vctPos := vctPos + [pos];
      vctLen := vctLen + [len];
    }
  }

  lemma CuttingEnd(s: seq<nat>, l: Limits, n: nat, len: int, cuts: seq<nat>, lens: seq<int>)
    requires Cutting(s, l, n, |s|, len, cuts, lens) && l.limit <= l.max && forall i :: 0 <= i < |s| ==> s[i] > 0
    ensures var cuts', lens' := if len > 0 then cuts + [|s|] else cuts, if len > 0 then lens + [len] else lens;
      Greedy(s, s, cuts', l) && ChunkLengths(s, cuts', lens') && CutsDone(s, l, n, cuts')
  {
    hide ClosedChunks, ChunkLengths, Greedy;
    if len > 0 {
      LastChunk(s, cuts, l);
      LengthsPush(s, cuts, lens, |s|);
    } else {
      EndsAfterCut(s, s, cuts, l);
    }
  }

  /** What is left after the last cut is the last chunk. */
  lemma LastChunk(s: seq<nat>, cuts: seq<nat>, l: Limits)
    requires l.limit <= l.max && ClosedChunks(s, s, cuts, |cuts|, l) && Start(cuts, |cuts|) <= |s|
    requires 0 < Part(s, Start(cuts, |cuts|), |s|) <= l.limit
    ensures Greedy(s, s, cuts + [|s|], l)
  {
    ClosedPush(s, s, cuts, l, |s|);
    PartSplit(s, Start(cuts, |cuts|), |s| - 1, |s|);
  }
}
