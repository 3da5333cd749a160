/** The cut loop of a leaf page (src/core/LeafPage.cpp:453-521).  It drops released records while it
    walks, so the record vector shrinks under the loop. */
module LeafCuts {
  import opened KeyOrder
  import opened GreedySplit
  import opened Pages

  /** Records that stay, none of them due to be released. */
  predicate AllLive(s: seq<Rec>) {
    forall i :: 0 <= i < |s| ==> !s[i].gone && s[i] == AfterRelease(s[i])
  }

  predicate AllFit(s: seq<Rec>, m: nat) {
    forall i :: 0 <= i < |s| ==> RecFit(s[i], m)
  }

  lemma {:induction false} FitLive(s: seq<Rec>, m: nat)
    requires AllFit(s, m)
    ensures AllFit(Live(s), m)
  {
    var r := Live(s);
    forall i | 0 <= i < |r| ensures RecFit(r[i], m) {
      LiveHas(s, r[i]);
      assert r[i] in r;
      var y :| y in s && !y.gone && r[i] == AfterRelease(y);
    }
  }

  lemma EraseGone(a: seq<Rec>, x: Rec, b: seq<Rec>)
    requires x.gone
    ensures Live(a + ([x] + b)) == Live(a + b)
  {
    assert Live([x]) == [];
    hide Live;
    LiveConcat(a, [x] + b);
    LiveConcat([x], b);
    LiveConcat(a, b);
  }

  /** Looking at one more live record extends the lengths seen so far. */
  lemma SeenGrows(s: seq<Rec>, n: nat)
    requires n < |s|
    ensures CLens(s[..n + 1]) == CLens(s[..n]) + [s[n].clen]
    ensures TLens(s[..n + 1]) == TLens(s[..n]) + [s[n].tlen]
  {
    assert s[..n + 1] == s[..n] + [s[n]];
  }

  /** A release changes nothing of what stays. */
  lemma LiveReleased(s: seq<Rec>, n: nat)
    requires n < |s|
    ensures Live(s[n := AfterRelease(s[n])]) == Live(s)
  {
    var x := AfterRelease(s[n]);
    assert s == s[..n] + ([s[n]] + s[n + 1..]) && s[n := x] == s[..n] + ([x] + s[n + 1..]);
    assert Live([x]) == Live([s[n]]);
    hide Live;
    LiveConcat(s[..n], [s[n]] + s[n + 1..]);
    LiveConcat([s[n]], s[n + 1..]);
    LiveConcat(s[..n], [x] + s[n + 1..]);
    LiveConcat([x], s[n + 1..]);
  }

  lemma FitReleased(s: seq<Rec>, n: nat, m: nat)
    requires n < |s| && AllFit(s, m)
    ensures AllFit(s[n := AfterRelease(s[n])], m) && (!s[n].due ==> s[n := AfterRelease(s[n])] == s)
  {
    assert RecFit(s[n], m);
  }

  /** The facts the loop keeps about the records s it has looked at and keeps, the chunks it has closed and the
      running lengths. */
  predicate Seen(s: seq<Rec>, pos: nat, cuts: seq<nat>, clens: seq<int>, tlens: seq<int>, clen: int, tlen: int,
      l: Limits) {
    && AllLive(s)
    && Start(cuts, |cuts|) <= pos <= |s|
    && ClosedChunks(CLens(s), TLens(s), cuts, |cuts|, l)
    && ChunkLengths(CLens(s), cuts, clens)
    && ChunkLengths(TLens(s), cuts, tlens)
    && clen == Part(CLens(s), Start(cuts, |cuts|), pos) <= l.limit
    && tlen == Part(TLens(s), Start(cuts, |cuts|), pos) <= l.limit
  }

  /** The first n records are the ones looked at. */
  predicate Progress(s: seq<Rec>, n: nat, pos: nat, cuts: seq<nat>, clens: seq<int>, tlens: seq<int>,
                     clen: int, tlen: int, l: Limits) {
    n <= |s| && Seen(s[..n], pos, cuts, clens, tlens, clen, tlen, l)
  }

  lemma ProgressStart(s: seq<Rec>, l: Limits)
    ensures Progress(s, 0, 0, [], [], [], 0, 0, l)
  {
  }

  /** What the loop itself reads off: a seen record is live, a dropped record was not seen. */
  lemma ProgressRead(s: seq<Rec>, n: nat, pos: nat, cuts: seq<nat>, clens: seq<int>, tlens: seq<int>,
                     clen: int, tlen: int, l: Limits)
    requires Progress(s, n, pos, cuts, clens, tlens, clen, tlen, l)
    ensures Start(cuts, |cuts|) <= pos <= n <= |s| && 0 <= clen <= l.limit && 0 <= tlen <= l.limit
    ensures pos < n ==> !s[pos].gone
  {
    if pos < n { assert s[..n][pos] == s[pos]; }
  }

  lemma ProgressErase(s: seq<Rec>, n: nat, cuts: seq<nat>, clens: seq<int>, tlens: seq<int>,
                      clen: int, tlen: int, l: Limits)
    requires n < |s| && s[n].gone && Progress(s, n, n, cuts, clens, tlens, clen, tlen, l)
    ensures Progress(s[..n] + s[n + 1..], n, n, cuts, clens, tlens, clen, tlen, l)
    ensures Live(s[..n] + s[n + 1..]) == Live(s)
  {
    hide Seen, Live;
    EraseGone(s[..n], s[n], s[n + 1..]);
    assert s == s[..n] + ([s[n]] + s[n + 1..]);
    assert (s[..n] + s[n + 1..])[..n] == s[..n];
  }

  lemma ProgressSee(s: seq<Rec>, n: nat, pos: nat, cuts: seq<nat>, clens: seq<int>, tlens: seq<int>,
                    clen: int, tlen: int, l: Limits)
    requires n < |s| && !s[n].gone && Progress(s, n, pos, cuts, clens, tlens, clen, tlen, l)
    ensures Progress(s[n := AfterRelease(s[n])], n + 1, pos, cuts, clens, tlens, clen, tlen, l)
  {
    var s' := s[n := AfterRelease(s[n])];
    assert s'[..n] == s[..n];
    SeenGrows(s', n);
    var c, t, c', t' := CLens(s[..n]), TLens(s[..n]), CLens(s'[..n + 1]), TLens(s'[..n + 1]);
    ClosedChunksAppend(c, t, cuts, l, c', t');
    LengthsAppend(c, cuts, clens, c');
    LengthsAppend(t, cuts, tlens, t');
    PartPrefix(c, c', Start(cuts, |cuts|), pos);
    PartPrefix(t, t', Start(cuts, |cuts|), pos);
    assert s'[..n + 1] == s[..n] + [s'[n]];
  }

  /** A record that was looked at before has been released then. */
  lemma ProgressSame(s: seq<Rec>, n: nat, pos: nat, cuts: seq<nat>, clens: seq<int>, tlens: seq<int>,
                     clen: int, tlen: int, l: Limits)
    requires Progress(s, n, pos, cuts, clens, tlens, clen, tlen, l) && pos < n
    ensures s[pos := AfterRelease(s[pos])] == s
  {
    assert s[..n][pos] == s[pos];
  }

  /** The record at `pos` leaves both lengths within the load limit. */
  lemma ProgressKeep(s: seq<Rec>, n: nat, pos: nat, cuts: seq<nat>, clens: seq<int>, tlens: seq<int>,
                     clen: int, tlen: int, l: Limits)
    requires Progress(s, n, pos, cuts, clens, tlens, clen, tlen, l) && pos < n
    requires clen + s[pos].clen <= l.limit && tlen + s[pos].tlen <= l.limit
    ensures Progress(s, n, pos + 1, cuts, clens, tlens, clen + s[pos].clen, tlen + s[pos].tlen, l)
  {
  }

  /** The record at `pos` takes a length past the load limit: the chunk closes after it, or before it when
      it does not fit the page. */
  lemma ProgressCut(s: seq<Rec>, n: nat, pos: nat, cuts: seq<nat>, clens: seq<int>, tlens: seq<int>,
                    clen: int, tlen: int, l: Limits)
    requires Progress(s, n, pos, cuts, clens, tlens, clen, tlen, l) && pos < n
    requires l.limit <= l.max && AllFit(s, l.max)
    requires clen + s[pos].clen > l.limit || tlen + s[pos].tlen > l.limit
    ensures if clen + s[pos].clen > l.max || tlen + s[pos].tlen > l.max
            then Start(cuts, |cuts|) < pos && Progress(s, n, pos, cuts + [pos], clens + [clen], tlens + [tlen], 0, 0, l)
            else Progress(s, n, pos + 1, cuts + [pos + 1], clens + [clen + s[pos].clen],
                          tlens + [tlen + s[pos].tlen], 0, 0, l)
  {
    var c, t := CLens(s[..n]), TLens(s[..n]);
    assert c[pos] == s[pos].clen && t[pos] == s[pos].tlen;
    CutStep(c, t, Start(cuts, |cuts|), pos, l);
    var b := if clen + s[pos].clen > l.max || tlen + s[pos].tlen > l.max then pos else pos + 1;
    ClosedPush(c, t, cuts, l, b);
    LengthsPush(c, cuts, clens, b);
    LengthsPush(t, cuts, tlens, b);
  }

  /** The rest after the last cut becomes the last chunk. */
  lemma ProgressEnd(s: seq<Rec>, cuts: seq<nat>, clens: seq<int>, tlens: seq<int>,
                    clen: int, tlen: int, l: Limits)
    requires Progress(s, |s|, |s|, cuts, clens, tlens, clen, tlen, l)
    requires l.limit <= l.max && AllFit(s, l.max)
    ensures s == Live(s)
    ensures tlen == 0 ==> GreedyCut(s, cuts, clens, tlens, l)
    ensures tlen > 0 ==> GreedyCut(s, cuts + [|s|], clens + [clen], tlens + [tlen], l)
  {
    assert s[..|s|] == s;
    LiveAll(s);
    TempPositive(s, l.max);
    hide Live, RecFit, CLens, TLens, AllLive;
    if tlen > 0 {
      ProgressLast(s, cuts, clens, tlens, clen, tlen, l);
    } else {
      EndsAfterCut(CLens(s), TLens(s), cuts, l);
    }
  }

  /** The records behind the last cut are the last chunk. */
  lemma ProgressLast(s: seq<Rec>, cuts: seq<nat>, clens: seq<int>, tlens: seq<int>,
                     clen: int, tlen: int, l: Limits)
    requires Progress(s, |s|, |s|, cuts, clens, tlens, clen, tlen, l) && tlen > 0 && Live(s) == s
    requires l.limit <= l.max
    ensures GreedyCut(s, cuts + [|s|], clens + [clen], tlens + [tlen], l)
  {
    assert s[..|s|] == s;
    hide Live, RecFit, CLens, TLens, AllLive;
    var c, t, a := CLens(s), TLens(s), Start(cuts, |cuts|);
    ClosedPush(c, t, cuts, l, |s|);
    LengthsPush(c, cuts, clens, |s|);
    LengthsPush(t, cuts, tlens, |s|);
    PartSplit(c, a, |s| - 1, |s|);
    PartSplit(t, a, |s| - 1, |s|);
  }

  /** Every record that stays counts in the temporary length. */
  lemma TempPositive(s: seq<Rec>, m: nat)
    requires AllLive(s) && AllFit(s, m)
    ensures forall i :: 0 <= i < |s| ==> TLens(s)[i] > 0
  {
    forall i | 0 <= i < |s| ensures TLens(s)[i] > 0 { assert RecFit(s[i], m); }
  }

  /** The records are cut greedily and both chunk lengths are recorded. */
  predicate GreedyCut(s: seq<Rec>, cuts: seq<nat>, clens: seq<int>, tlens: seq<int>, l: Limits) {
    && Greedy(CLens(s), TLens(s), cuts, l)
    && ChunkLengths(CLens(s), cuts, clens)
    && ChunkLengths(TLens(s), cuts, tlens)
  }

  /** The cut loop.  `pos` steps back when a record is dropped or would overflow the chunk; the lengths
      taken back are the ones this record added.  What the source takes back is in LeafCutsWritten. */
  method LeafCuts(recs: seq<Rec>, l: Limits)
    returns (out: seq<Rec>, vctPos: seq<nat>, vctCLen: seq<int>, vctTLen: seq<int>)
    requires l.limit <= l.max && AllFit(recs, l.max)
    ensures out == Live(recs)
    ensures GreedyCut(out, vctPos, vctCLen, vctTLen, l)
  {
    hide Progress, GreedyCut, Live, CLens, TLens, AllLive;
    out, vctPos, vctCLen, vctTLen := recs, [], [], [];
    var pos, clen, tlen := 0, 0, 0;
    ghost var n := 0;  // records [0, n) have been looked at and stay
    ProgressStart(out, l);
    while pos < |out|
      invariant AllFit(out, l.max)
      invariant Live(out) == Live(recs)
      invariant Start(vctPos, |vctPos|) <= pos <= n <= |out|
      invariant Progress(out, n, pos, vctPos, vctCLen, vctTLen, clen, tlen, l)
      decreases |out| - Start(vctPos, |vctPos|), |out| - pos
    {
      var lr := out[pos];
      ProgressRead(out, n, pos, vctPos, vctCLen, vctTLen, clen, tlen, l);
      if lr.gone {
        ProgressErase(out, n, vctPos, vctCLen, vctTLen, clen, tlen, l);
        out := out[..pos] + out[pos + 1..];
      } else {
        FitReleased(out, pos, l.max);
        LiveReleased(out, pos);
        if pos == n {
          ProgressSee(out, n, pos, vctPos, vctCLen, vctTLen, clen, tlen, l);
          n := n + 1;
        } else {
          ProgressSame(out, n, pos, vctPos, vctCLen, vctTLen, clen, tlen, l);
        }
        if lr.due {
          out := out[pos := AfterRelease(lr)];
        }
        if clen + lr.clen > l.limit || tlen + lr.tlen > l.limit {
          ProgressCut(out, n, pos, vctPos, vctCLen, vctTLen, clen, tlen, l);
        } else {
          ProgressKeep(out, n, pos, vctPos, vctCLen, vctTLen, clen, tlen, l);
        }
        clen, tlen := clen + lr.clen, tlen + lr.tlen;
        if clen > l.limit || tlen > l.limit {
          if clen > l.max || tlen > l.max {
            tlen := tlen - lr.tlen;
            clen := clen - lr.clen;
            pos := pos - 1;
          }
          vctPos := vctPos + [pos + 1];
          vctCLen := vctCLen + [clen];
          vctTLen := vctTLen + [tlen];
          clen, tlen := 0, 0;
        }
        pos := pos + 1;
      }
    }
    ProgressRead(out, n, pos, vctPos, vctCLen, vctTLen, clen, tlen, l);
    ProgressEnd(out, vctPos, vctCLen, vctTLen, clen, tlen, l);
    if tlen > 0 {
      vctPos := vctPos + [pos];
      vctCLen := vctCLen + [clen];
      vctTLen := vctTLen + [tlen];
    }
  }

  // ---------- the step back as written ----------

  /** The record after chunk j was tried, would have overflown the page, and was left to the next chunk. */
  predicate StepsBack(s: seq<Rec>, cuts: seq<nat>, j: nat, l: Limits)
    requires j < |cuts|
  {
    cuts[j] < |s| && WithinLimit(CLens(s), TLens(s), Start(cuts, j), cuts[j], l)
  }

  /** What stays in the recorded temporary length of chunk j: the record's newest version was added, but the
      finished version it leads back to is taken off. */
  function Left(s: seq<Rec>, cuts: seq<nat>, j: nat, l: Limits): int
    requires j < |cuts|
  {
    if StepsBack(s, cuts, j, l) then s[cuts[j]].tlen - s[cuts[j]].clen else 0
  }

  /** A record steps back that has no finished version: the walk to it has ended at a null pointer. */
  ghost predicate ReadsNull(s: seq<Rec>, cuts: seq<nat>, l: Limits) {
    exists j :: 0 <= j < |cuts| && StepsBack(s, cuts, j, l) && s[cuts[j]].clen == 0
  }

  ghost predicate WrittenTo(s: seq<Rec>, cuts: seq<nat>, tlens: seq<int>, written: seq<int>, l: Limits) {
    && |cuts| == |tlens| == |written|
    && forall j :: 0 <= j < |cuts| ==>
                     written[j] == tlens[j] + Left(s, cuts, j, l) && (StepsBack(s, cuts, j, l) ==> s[cuts[j]].clen > 0)
  }

  /** The cut loop with lines 503-506 as they are: after the walk at 485-494 `lr` is the record's newest finished
      version, which for a record that is finished itself is the record, and no version for a new one.  `cuts`
      are the greedy cuts of the records that stay. */
  method LeafCutsWritten(recs: seq<Rec>, l: Limits, ghost cuts: seq<nat>)
    returns (nullRead: bool, out: seq<Rec>, vctPos: seq<nat>, vctCLen: seq<int>, vctTLen: seq<int>)
    requires l.limit <= l.max && AllFit(recs, l.max)
    requires Greedy(CLens(Live(recs)), TLens(Live(recs)), cuts, l)
    ensures nullRead <==> ReadsNull(Live(recs), cuts, l)
    ensures !nullRead ==>
              && out == Live(recs) && vctPos == cuts && ChunkLengths(CLens(out), cuts, vctCLen)
              && WrittenLens(out, cuts, vctTLen, l)
  {
    hide Progress, GreedyCut, Live, CLens, TLens, AllLive, ReadsNull, WrittenTo, Greedy, AllFit, ChunkLengths,
        WrittenLens;
    out, vctPos, vctCLen, vctTLen, nullRead := recs, [], [], [], false;
    var pos, clen, tlen := 0, 0, 0;
    ghost var n, tls: seq<int> := 0, [];  // tls: the temporary lengths of the chunks
    ProgressStart(out, l);
    WrittenStart(l);
    while pos < |out|
      invariant AllFit(out, l.max) && Live(out) == Live(recs)
      invariant Start(vctPos, |vctPos|) <= pos <= n <= |out|
      invariant Progress(out, n, pos, vctPos, vctCLen, tls, clen, tlen, l)
      invariant WrittenTo(out[..n], vctPos, tls, vctTLen, l)
      decreases |out| - Start(vctPos, |vctPos|), |out| - pos
    {
      var lr := out[pos];
      ProgressRead(out, n, pos, vctPos, vctCLen, tls, clen, tlen, l);
      if lr.gone {
        ProgressErase(out, n, vctPos, vctCLen, tls, clen, tlen, l);
        ErasePrefix(out, n, l.max);
        out := out[..pos] + out[pos + 1..];
      } else {
        FitReleased(out, pos, l.max);
        LiveReleased(out, pos);
        if pos == n {
          ProgressSee(out, n, pos, vctPos, vctCLen, tls, clen, tlen, l);
          WrittenSee(out, n, pos, vctPos, vctCLen, tls, clen, tlen, l, vctTLen);
          n := n + 1;
        } else {
          ProgressSame(out, n, pos, vctPos, vctCLen, tls, clen, tlen, l);
        }
        if lr.due {
          out := out[pos := AfterRelease(lr)];
        }
        if clen + lr.clen > l.limit || tlen + lr.tlen > l.limit {
          ProgressCut(out, n, pos, vctPos, vctCLen, tls, clen, tlen, l);
          WrittenCut(out, n, pos, vctPos, vctCLen, tls, clen, tlen, l, vctTLen);
        } else {
          ProgressKeep(out, n, pos, vctPos, vctCLen, tls, clen, tlen, l);
        }
        clen, tlen := clen + lr.clen, tlen + lr.tlen;
        if clen > l.limit || tlen > l.limit {
          ghost var added := tlen;
          if clen > l.max || tlen > l.max {
            if lr.clen == 0 {
              NullReached(recs, out, n, pos, vctPos, vctCLen, tls, clen - lr.clen, tlen - lr.tlen, l, cuts);
              nullRead := true;
              return;
            }
            added := tlen - lr.tlen;
            tlen := tlen - lr.clen;
            clen := clen - lr.clen;
            pos := pos - 1;
          }
          vctPos := vctPos + [pos + 1];
          vctCLen := vctCLen + [clen];
          vctTLen := vctTLen + [tlen];
          tls := tls + [added];
          clen, tlen := 0, 0;
        }
        pos := pos + 1;
      }
    }
    ProgressRead(out, n, pos, vctPos, vctCLen, tls, clen, tlen, l);
    ProgressEnd(out, vctPos, vctCLen, tls, clen, tlen, l);
    assert out[..n] == out;
    if tlen > 0 {
      WrittenLast(out, vctPos, vctCLen, tls, clen, tlen, l, vctTLen);
      vctPos := vctPos + [pos];
      vctCLen := vctCLen + [clen];
      vctTLen := vctTLen + [tlen];
      tls := tls + [tlen];
    }
    WrittenEnd(out, vctPos, vctCLen, tls, vctTLen, l, cuts);
  }

  lemma WrittenStart(l: Limits)
    ensures WrittenTo([], [], [], [], l)
  {
  }

  lemma ErasePrefix(s: seq<Rec>, n: nat, m: nat)
    requires n < |s| && AllFit(s, m)
    ensures (s[..n] + s[n + 1..])[..n] == s[..n] && AllFit(s[..n] + s[n + 1..], m)
  {
    hide RecFit;
  }

  /** Whether a record steps back is settled once its chunk is closed. */
  lemma StepsSame(s: seq<Rec>, s': seq<Rec>, cuts: seq<nat>, j: nat, l: Limits)
    requires s <= s' && j < |cuts| && Closed(CLens(s), TLens(s), Start(cuts, j), cuts[j], l)
    ensures StepsBack(s, cuts, j, l) <==> StepsBack(s', cuts, j, l)
    ensures Left(s, cuts, j, l) == Left(s', cuts, j, l)
  {
    LensPrefix(s, s');
    PartPrefix(CLens(s), CLens(s'), Start(cuts, j), cuts[j]);
    PartPrefix(TLens(s), TLens(s'), Start(cuts, j), cuts[j]);
  }

  lemma LensPrefix(s: seq<Rec>, s': seq<Rec>)
    requires s <= s'
    ensures CLens(s) <= CLens(s') && TLens(s) <= TLens(s')
  {
  }

  lemma WrittenSee(s: seq<Rec>, n: nat, pos: nat, cuts: seq<nat>, clens: seq<int>, tlens: seq<int>,
                   clen: int, tlen: int, l: Limits, written: seq<int>)
    requires n < |s| && Progress(s, n, pos, cuts, clens, tlens, clen, tlen, l) &&
        WrittenTo(s[..n], cuts, tlens, written, l)
    ensures WrittenTo(s[n := AfterRelease(s[n])][..n + 1], cuts, tlens, written, l)
  {
    hide StepsBack, Left, CLens, TLens;
    var u := s[n := AfterRelease(s[n])][..n + 1];
    assert s[..n] == u[..n];
    forall j | 0 <= j < |cuts|
      ensures written[j] == tlens[j] + Left(u, cuts, j, l)
      ensures StepsBack(u, cuts, j, l) ==> cuts[j] < n && u[cuts[j]].clen > 0
    {
      assert Closed(CLens(s[..n]), TLens(s[..n]), Start(cuts, j), cuts[j], l);
      StepsSame(s[..n], u, cuts, j, l);
      if StepsBack(s[..n], cuts, j, l) { StepsWithin(s[..n], cuts, j, l); }
    }
  }

  lemma StepsWithin(s: seq<Rec>, cuts: seq<nat>, j: nat, l: Limits)
    requires j < |cuts| && StepsBack(s, cuts, j, l)
    ensures cuts[j] < |s|
  {
  }

  /** One more chunk. */
  lemma WrittenPush(s: seq<Rec>, cuts: seq<nat>, tlens: seq<int>, written: seq<int>, l: Limits, b: nat, tlen: int,
      w: int)
    requires WrittenTo(s, cuts, tlens, written, l)
    requires w == tlen + Left(s, cuts + [b], |cuts|, l) && (StepsBack(s, cuts + [b], |cuts|, l) ==> s[b].clen > 0)
    ensures WrittenTo(s, cuts + [b], tlens + [tlen], written + [w], l)
  {
    var cuts' := cuts + [b];
    hide CLens, TLens, WithinLimit;
    forall j | 0 <= j < |cuts'|
      ensures (written + [w])[j] == (tlens + [tlen])[j] + Left(s, cuts', j, l) &&
          (StepsBack(s, cuts', j, l) ==> s[cuts'[j]].clen > 0)
    {
      if j < |cuts| { SameChunk(s, cuts, b, j, l); }
    }
  }

  lemma SameChunk(s: seq<Rec>, cuts: seq<nat>, b: nat, j: nat, l: Limits)
    requires j < |cuts|
    ensures (cuts + [b])[j] == cuts[j] && Left(s, cuts + [b], j, l) == Left(s, cuts, j, l)
    ensures StepsBack(s, cuts + [b], j, l) <==> StepsBack(s, cuts, j, l)
  {
    assert Start(cuts + [b], j) == Start(cuts, j);
  }

  lemma WrittenCut(s: seq<Rec>, n: nat, pos: nat, cuts: seq<nat>, clens: seq<int>, tlens: seq<int>,
                   clen: int, tlen: int, l: Limits, written: seq<int>)
    requires Progress(s, n, pos, cuts, clens, tlens, clen, tlen, l) && pos < n &&
        WrittenTo(s[..n], cuts, tlens, written, l)
    requires l.limit <= l.max && (clen + s[pos].clen > l.limit || tlen + s[pos].tlen > l.limit)
    ensures if clen + s[pos].clen > l.max || tlen + s[pos].tlen > l.max
            then s[pos].clen > 0 ==>
                   WrittenTo(s[..n], cuts + [pos], tlens + [tlen], written + [tlen + s[pos].tlen - s[pos].clen], l)
            else WrittenTo(s[..n], cuts + [pos + 1], tlens + [tlen + s[pos].tlen], written + [tlen + s[pos].tlen], l)
  {
    hide WrittenTo;
    var u := s[..n];
    assert u[pos] == s[pos];
    if clen + s[pos].clen > l.max || tlen + s[pos].tlen > l.max {
      if s[pos].clen > 0 { WrittenPush(u, cuts, tlens, written, l, pos, tlen, tlen + s[pos].tlen - s[pos].clen); }
    } else {
      WrittenPush(u, cuts, tlens, written, l, pos + 1, tlen + s[pos].tlen, tlen + s[pos].tlen);
    }
  }

  lemma WrittenLast(s: seq<Rec>, cuts: seq<nat>, clens: seq<int>, tlens: seq<int>, clen: int, tlen: int, l: Limits,
      written: seq<int>)
    requires WrittenTo(s, cuts, tlens, written, l)
    ensures WrittenTo(s, cuts + [|s|], tlens + [tlen], written + [tlen], l)
  {
    hide WrittenTo;
    WrittenPush(s, cuts, tlens, written, l, |s|, tlen, tlen);
  }

  lemma NullReached(recs: seq<Rec>, s: seq<Rec>, n: nat, pos: nat, cuts: seq<nat>, clens: seq<int>, tlens: seq<int>,
                    clen: int, tlen: int, l: Limits, all: seq<nat>)
    requires Progress(s, n, pos, cuts, clens, tlens, clen, tlen, l) && pos < n && s[pos].clen == 0
    requires Live(s) == Live(recs) && Greedy(CLens(Live(recs)), TLens(Live(recs)), all, l)
    requires l.limit <= l.max && AllFit(s, l.max) && (clen + s[pos].clen > l.max || tlen + s[pos].tlen > l.max)
    ensures ReadsNull(Live(recs), all, l)
  {
    hide Seen, Live, Greedy, ReadsNull;
    ProgressCut(s, n, pos, cuts, clens, tlens, clen, tlen, l);
    var u, v := cuts + [pos], s[..n];
    SeenChunks(v, u, pos, clens + [clen], tlens + [tlen], l, s, n);
    NotFull(v, pos, cuts, clens, tlens, clen, tlen, l, s, n);
    SeenStays(s, n, recs);
    assert v[pos] == s[pos];
    NullAt(v, Live(recs), cuts, pos, l, all);
  }

  /** What the loop has looked at is the front of what stays. */
  lemma SeenStays(s: seq<Rec>, n: nat, recs: seq<Rec>)
    requires n <= |s| && AllLive(s[..n]) && Live(s) == Live(recs)
    ensures s[..n] <= Live(recs)
  {
    assert s == s[..n] + s[n..];
    LiveConcat(s[..n], s[n..]);
    LiveAll(s[..n]);
  }

  lemma NullAt(v: seq<Rec>, r: seq<Rec>, cuts: seq<nat>, pos: nat, l: Limits, all: seq<nat>)
    requires v <= r && pos < |v| && v[pos].clen == 0 && Greedy(CLens(r), TLens(r), all, l)
    requires ClosedChunks(CLens(v), TLens(v), cuts + [pos], |cuts| + 1, l)
    requires Start(cuts, |cuts|) <= pos && WithinLimit(CLens(v), TLens(v), Start(cuts, |cuts|), pos, l)
    ensures ReadsNull(r, all, l)
  {
    hide ClosedChunks, Greedy, CLens, TLens;
    var u, j := cuts + [pos], |cuts|;
    LensPrefix(v, r);
    ClosedChunksAppend(CLens(v), TLens(v), u, l, CLens(r), TLens(r));
    forall k | 0 <= k < |u| ensures k < |all| && u[k] == all[k] {
      ClosedPrefix(CLens(r), TLens(r), u, all, l, k);
    }
    assert u[j] == pos && j < |all|;
    if j > 0 { assert u[j - 1] == cuts[j - 1] == all[j - 1]; }
    assert Start(all, j) == Start(cuts, j) && all[j] == pos;
    PartPrefix(CLens(v), CLens(r), Start(cuts, j), pos);
    PartPrefix(TLens(v), TLens(r), Start(cuts, j), pos);
    assert StepsBack(r, all, j, l) && r[all[j]] == v[pos];
  }

  lemma SeenChunks(v: seq<Rec>, cuts: seq<nat>, pos: nat, clens: seq<int>, tlens: seq<int>, l: Limits, s: seq<Rec>,
      n: nat)
    requires n <= |s| && v == s[..n] && Progress(s, n, pos, cuts, clens, tlens, 0, 0, l)
    ensures ClosedChunks(CLens(v), TLens(v), cuts, |cuts|, l)
  {
  }

  lemma NotFull(v: seq<Rec>, pos: nat, cuts: seq<nat>, clens: seq<int>, tlens: seq<int>, clen: int, tlen: int,
      l: Limits, s: seq<Rec>, n: nat)
    requires n <= |s| && v == s[..n] && Progress(s, n, pos, cuts, clens, tlens, clen, tlen, l)
    ensures AllLive(v) && Start(cuts, |cuts|) <= pos <= |v| &&
        WithinLimit(CLens(v), TLens(v), Start(cuts, |cuts|), pos, l)
  {
  }

  /** The recorded temporary lengths. */
  ghost predicate WrittenLens(s: seq<Rec>, cuts: seq<nat>, written: seq<int>, l: Limits) {
    && |written| == |cuts|
    && forall j {:trigger Start(cuts, j)} :: 0 <= j < |cuts| ==>
         cuts[j] <= |s| && written[j] == Part(TLens(s), Start(cuts, j), cuts[j]) + Left(s, cuts, j, l)
  }

  lemma WrittenEnd(s: seq<Rec>, cuts: seq<nat>, clens: seq<int>, tlens: seq<int>, written: seq<int>, l: Limits,
      all: seq<nat>)
    requires GreedyCut(s, cuts, clens, tlens, l) && WrittenTo(s, cuts, tlens, written, l) &&
        Greedy(CLens(s), TLens(s), all, l)
    ensures cuts == all && !ReadsNull(s, all, l) && ChunkLengths(CLens(s), all, clens) &&
        WrittenLens(s, all, written, l)
  {
    hide Greedy, StepsBack, Left, CLens, TLens;
    SameCuts(CLens(s), TLens(s), cuts, all, l);
    forall j | 0 <= j < |cuts| && StepsBack(s, cuts, j, l) ensures cuts[j] < |s| { StepsWithin(s, cuts, j, l); }
    forall j | 0 <= j < |all|
      ensures all[j] <= |s| && written[j] == Part(TLens(s), Start(all, j), all[j]) + Left(s, all, j, l)
    {
      assert tlens[j] == Part(TLens(s), Start(cuts, j), cuts[j]);
    }
  }

  /** They are those of the chunks exactly when every record that steps back counts as much in its newest version
      as in its finished one. */
  lemma WrittenIff(s: seq<Rec>, cuts: seq<nat>, written: seq<int>, l: Limits)
    requires WrittenLens(s, cuts, written, l)
    ensures ChunkLengths(TLens(s), cuts, written)
            <==> forall j :: 0 <= j < |cuts| && StepsBack(s, cuts, j, l) ==> s[cuts[j]].tlen == s[cuts[j]].clen
  {
    hide TLens, CLens, WithinLimit, Part;
    if ChunkLengths(TLens(s), cuts, written) {
      forall j | 0 <= j < |cuts| && StepsBack(s, cuts, j, l) ensures s[cuts[j]].tlen == s[cuts[j]].clen {
        assert written[j] == Part(TLens(s), Start(cuts, j), cuts[j]);
      }
    } else {
      var j :| 0 <= j < |cuts| && written[j] != Part(TLens(s), Start(cuts, j), cuts[j]);
      assert StepsBack(s, cuts, j, l) && Left(s, cuts, j, l) != 0;
    }
  }

  /** A finished record and a new one or a changed one, each of the largest size. */
  lemma StepBackExamples(a: Rec, b: Rec, d: Rec)
    requires RecFit(a, MAX_LEAF) && RecFit(b, MAX_LEAF) && RecFit(d, MAX_LEAF) && !a.gone && !b.gone && !d.gone
    requires a.clen == a.tlen == b.tlen == d.tlen == 8182 && b.clen == 0 && d.clen == 100
    ensures Greedy(CLens([a, b]), TLens([a, b]), [1, 2], LEAF_LIMITS) && ReadsNull([a, b], [1, 2], LEAF_LIMITS)
    ensures Greedy(CLens([a, d]), TLens([a, d]), [1, 2], LEAF_LIMITS) && Left([a, d], [1, 2], 0, LEAF_LIMITS) == 8082
  {
    TwoCut(a, b);
    TwoCut(a, d);
    assert [a, b][[1, 2][0]].clen == 0;
  }

  lemma TwoCut(a: Rec, b: Rec)
    requires a.clen == a.tlen == b.tlen == 8182 && b.clen <= 8182
    ensures Greedy(CLens([a, b]), TLens([a, b]), [1, 2], LEAF_LIMITS) && StepsBack([a, b], [1, 2], 0, LEAF_LIMITS)
  {
    assert CLens([a, b]) == [a.clen, b.clen] && TLens([a, b]) == [a.tlen, b.tlen];
    TwoParts([a.clen, b.clen]);
    TwoParts([a.tlen, b.tlen]);
    assert Start([1, 2], 0) == 0 && Start([1, 2], 1) == 1;
  }

  lemma TwoParts(s: seq<nat>)
    requires |s| == 2
    ensures Part(s, 0, 0) == Part(s, 1, 1) == 0 && Part(s, 0, 1) == s[0] && Part(s, 1, 2) == s[1] &&
        Part(s, 0, 2) == s[0] + s[1]
  {
    assert Part(s, 0, 1) == Part(s, 0, 0) + s[0];
    assert Part(s, 0, 2) == Part(s, 0, 1) + s[1];
    assert Part(s, 1, 2) == Part(s, 1, 1) + s[1];
  }
}
