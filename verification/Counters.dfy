/** Record stamps and auto-increment keys (src/core/IndexTree.cpp:12-31 and 657-692,
    src/core/HeadPage.h:126-136 and 264-275).

    One task takes numbers from the head page; several tasks take batches for their ranges. */
module Counters {

  /** The numbers a range has in stock; none when start has reached end. */
  datatype Batch = Batch(start: nat, end: nat)

  class Counter {
    const batch: nat          // STAMP_BATCH or INC_KEY_BATCH
    var current: nat          // the counter of the head page
    var ranges: seq<Batch>    // no stock counts while there is one task
    ghost var issued: set<nat>

    ghost predicate Valid()
      reads this
    {
      && batch > 0
      && (forall v :: v in issued ==> v < current)
      && (forall i, v :: 0 <= i < |ranges| && v in issued ==> !InStock(ranges[i], v))
      && (forall i {:trigger ranges[i]} :: 0 <= i < |ranges| && ranges[i].start < ranges[i].end ==>
          ranges[i].end <= current)
      && (forall i, j :: 0 <= i < j < |ranges| ==> NumbersApart(ranges[i], ranges[j]))
    }

    /** No number is lost: each one below the counter was issued or is in some stock. */
    ghost predicate NoneLost()
      reads this
    {
      forall v: nat :: v < current && v !in issued ==> exists i :: 0 <= i < |ranges| && InStock(ranges[i], v)
    }

    constructor (batch: nat)
      requires batch > 0
      ensures Valid() && issued == {} && ranges == [] && current == 0 && NoneLost()
    {
      this.batch, current, ranges, issued := batch, 0, [], {};
    }

    /** ApplyStamp (step 1) and ApplyAutoIncKey: a number that was never issued before.  It is the next one of the
        range's stock, or of the counter if there is one task or no stock; with step 1 no number is left out. */
    method Apply(iRange: nat, step: nat) returns (v: nat)
      requires Valid() && step >= 1 && (|ranges| > 1 ==> iRange < |ranges|)
      modifies this
      ensures Valid() && v !in old(issued) && issued == old(issued) + {v}
      ensures |ranges| == |old(ranges)| && forall i :: 0 <= i < |ranges| && i != iRange ==> ranges[i] == old(ranges)[i]
      ensures var stock := |ranges| > 1 && old(ranges)[iRange].start < old(ranges)[iRange].end;
        && v == (if stock then old(ranges)[iRange].start else old(current))
        && current == old(current) + if stock then 0 else if |ranges| > 1 then batch else step
      ensures step == 1 && old(NoneLost()) ==> NoneLost()
    {
      ghost var was := ranges;
      if |ranges| > 1 {
        var range := ranges[iRange];
        if range.start >= range.end {
          range := Batch(current, current + batch);
          current := current + batch;
        }
        v := range.start;
        ranges := ranges[iRange := Batch(range.start + step, range.end)];
      } else {
        v := current;
        current := current + step;
      }
      issued := issued + {v};
      if step == 1 && old(NoneLost()) {
        forall w: nat | w < current && w !in issued ensures exists i :: 0 <= i < |ranges| && InStock(ranges[i], w) {
          if w < old(current) {
            var i :| 0 <= i < |was| && InStock(was[i], w);
            assert InStock(ranges[i], w);
          } else {
            assert InStock(ranges[iRange], w);
          }
        }
      }
    }

    /** The move of a range keeps the start of its stamps for both ends, and no keys: what was in stock is
        lost, never issued twice. */
    method MoveRange(i: nat, keepStart: bool)
      requires Valid() && i < |ranges|
      modifies this`ranges
      ensures Valid() && issued == old(issued) && |ranges| == |old(ranges)|
      ensures !exists v :: InStock(ranges[i], v)
      ensures var at := if keepStart then old(ranges)[i].start else 0; ranges[i] == Batch(at, at)
      ensures forall j :: 0 <= j < |ranges| && j != i ==> ranges[j] == old(ranges)[j]
    {
      ranges := ranges[i := if keepStart then Batch(ranges[i].start, ranges[i].start) else Batch(0, 0)];
    }

    /** The ranges of a new number of tasks start without stock. */
    method SetTasks(n: nat)
      requires Valid()
      modifies this`ranges
      ensures Valid() && issued == old(issued) && |ranges| == n
      ensures forall i, v :: 0 <= i < n ==> !InStock(ranges[i], v)
    {
      ranges := seq(n, _ => Batch(0, 0));
    }
  }

  predicate InStock(b: Batch, v: nat) {
    b.start <= v < b.end
  }

  /** No number is in both stocks. */
  predicate NumbersApart(a: Batch, b: Batch) {
    a.start >= a.end || b.start >= b.end || a.end <= b.start || b.end <= a.start
  }
}
