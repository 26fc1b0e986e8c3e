/**
 * The id allocator and acknowledgment watermark of a linearizable-RPC client
 * session (src/RpcTracker.cc).  A ring of `windowSize` completion flags,
 * indexed by `id % windowSize`, records which of the outstanding ids have
 * finished; `firstMissing` is the oldest id not yet known to be finished and
 * `nextRpcId` the next id to hand out.
 */
module RpcTracking {

  /**
   * The first id at or after `from` that has not finished, stopping at `next`
   * (the first id not yet issued).  This is where the forward sweep of
   * `firstMissing` must end.
   */
  function FirstMissingFrom(finished: set<nat>, from: nat, next: nat): (r: nat)
    requires from <= next
    ensures from <= r <= next
    ensures forall id: nat :: from <= id < r ==> id in finished
    ensures r < next ==> r !in finished
    decreases next - from
  {
    if from < next && from in finished then FirstMissingFrom(finished, from + 1, next) else from
  }

  /**
   * FirstMissingFrom is the only id with its three properties: any `m` that
   * only passes finished ids and stops at `next` or at an unfinished id is it.
   */
  lemma {:induction false} FirstMissingFromIs(finished: set<nat>, from: nat, next: nat, m: nat)
    requires from <= m <= next
    requires forall id: nat :: from <= id < m ==> id in finished
    requires m < next ==> m !in finished
    ensures FirstMissingFrom(finished, from, next) == m
    decreases m - from
  {
    if from < m {
      FirstMissingFromIs(finished, from + 1, next, m);
    }
  }

  /** Two ids less than `w` apart occupy different slots of a ring of `w` slots. */
  lemma DistinctSlots(x: nat, y: nat, w: nat)
    requires 0 < w && x < y < x + w
    ensures x % w != y % w
  {
    var k := y / w - x / w;
    assert y % w - x % w == (y - x) - w * k by {
      assert x == w * (x / w) + x % w;
      assert y == w * (y / w) + y % w;
      assert w * k == w * (y / w) - w * (x / w);
    }
    if k >= 1 {
      MulAtLeast(w, k);
    } else if k <= -1 {
      MulAtLeast(w, -k);
    }
  }

  lemma MulAtLeast(w: nat, k: int)
    requires k >= 1
    ensures w * k >= w
  {
  }

  /** The ids in [lo, hi); there are exactly hi - lo of them. */
  ghost function IdRange(lo: nat, hi: nat): (r: set<nat>)
    requires lo <= hi
    ensures forall id :: id in r <==> lo <= id < hi
    ensures |r| == hi - lo
    decreases hi - lo
  {
    if lo == hi then {} else {lo} + IdRange(lo + 1, hi)
  }

  /** A subset is no larger than the set containing it. */
  lemma SubsetSize<T>(small: set<T>, large: set<T>)
    requires small <= large
    ensures |small| <= |large|
  {
    assert large == small + (large - small);
  }

  /** Every id in [from, to) has its slot of the ring `slots` set exactly when it has finished. */
  ghost predicate SlotsMatch(slots: seq<bool>, from: nat, to: nat, finished: set<nat>)
    requires |slots| > 0
  {
    forall id: nat :: from <= id < to ==> (slots[id % |slots|] <==> id in finished)
  }

  /** Setting the slot of an outstanding id records exactly that id as finished. */
  lemma MarkSlot(slots: seq<bool>, from: nat, to: nat, finished: set<nat>, id: nat)
    requires |slots| > 0 && from <= id < to <= from + |slots|
    requires SlotsMatch(slots, from, to, finished)
    ensures SlotsMatch(slots[id % |slots| := true], from, to, finished + {id})
  {
    var w := |slots|;
    var marked := slots[id % w := true];
    forall other: nat | from <= other < to
      ensures marked[other % w] <==> other in finished + {id}
    {
      if other < id {
        DistinctSlots(other, id, w);
      } else if id < other {
        DistinctSlots(id, other, w);
      }
    }
  }

  /** Clearing the slot of a fresh id `to` (the window not being full) adds it, unfinished, to the window. */
  lemma ClearSlot(slots: seq<bool>, from: nat, to: nat, finished: set<nat>)
    requires |slots| > 0 && from <= to < from + |slots|
    requires to !in finished
    requires SlotsMatch(slots, from, to, finished)
    ensures SlotsMatch(slots[to % |slots| := false], from, to + 1, finished)
  {
    var w := |slots|;
    var cleared := slots[to % w := false];
    forall other: nat | from <= other < to + 1
      ensures cleared[other % w] <==> other in finished
    {
      if other < to {
        DistinctSlots(other, to, w);
      }
    }
  }

  class RpcTracker {
    /** Capacity of the window: the most RPCs that may be outstanding at once. */
    const windowSize: nat
    /** Completion flag of the id that last occupied each slot. */
    const rpcs: array<bool>
    /** The oldest id whose result has not been received. */
    var firstMissing: nat
    /** The id the next call to NewRpcId hands out. */
    var nextRpcId: nat

    /** Abstract view: every id handed out so far. */
    ghost var issued: set<nat>
    /** Abstract view: every id whose result has been received. */
    ghost var finished: set<nat>

    ghost predicate Valid()
      reads this, rpcs
    {
      windowSize > 0 && rpcs.Length == windowSize &&
      1 <= firstMissing <= nextRpcId <= firstMissing + windowSize &&
      (forall id: nat :: id in issued <==> 1 <= id < nextRpcId) &&
      (forall id: nat :: id in finished ==> id in issued) &&
      (forall id: nat :: 1 <= id < firstMissing ==> id in finished) &&
      (firstMissing < nextRpcId ==> firstMissing !in finished) &&
      SlotsMatch(rpcs[..], firstMissing, nextRpcId, finished)
    }

    /** A tracker with an empty window; ids are handed out from 1, so 0 stays a sentinel. */
    constructor (windowSize: nat)
      requires windowSize > 0
      ensures Valid() && fresh(rpcs)
      ensures this.windowSize == windowSize
      ensures firstMissing == 1 && nextRpcId == 1
      ensures issued == {} && finished == {}
    {
      this.windowSize := windowSize;
      rpcs := new bool[windowSize](_ => false);
      firstMissing, nextRpcId := 1, 1;
      issued, finished := {}, {};
    }

    /**
     * Number of ids issued and not yet swept past by firstMissing.  Every id
     * still in flight (issued, result not received) is one of them, so at
     * most windowSize RPCs are ever in flight.
     */
    function Outstanding(): (n: nat)
      reads this, rpcs
      requires Valid()
      ensures n == |set id: nat | id in issued && firstMissing <= id|
      ensures forall id :: id in issued && id !in finished ==> firstMissing <= id < nextRpcId
      ensures |issued - finished| <= n <= windowSize
      ensures n == 0 <==> firstMissing == nextRpcId
    {
      assert (set id: nat | id in issued && firstMissing <= id) == IdRange(firstMissing, nextRpcId);
      SubsetSize(issued - finished, IdRange(firstMissing, nextRpcId));
      nextRpcId - firstMissing
    }

    /**
     * Marks the result of `id` as received.  If `id` was the oldest missing
     * one, firstMissing moves past the whole run of finished ids after it.
     */
    method RpcFinished(id: nat)
      requires Valid()
      requires firstMissing <= id < nextRpcId
      requires !rpcs[id % windowSize]
      modifies this, rpcs
      ensures Valid()
      ensures finished == old(finished) + {id} && issued == old(issued)
      ensures nextRpcId == old(nextRpcId)
      ensures rpcs[..] == old(rpcs[..])[id % windowSize := true]
      ensures id != old(firstMissing) ==> firstMissing == old(firstMissing)
      ensures firstMissing == FirstMissingFrom(finished, old(firstMissing), nextRpcId)
    {
      MarkSlot(rpcs[..], firstMissing, nextRpcId, finished, id);
      rpcs[id % windowSize] := true;
      finished := finished + {id};
      if firstMissing == id {
        firstMissing := firstMissing + 1;
        while rpcs[firstMissing % windowSize] && firstMissing < nextRpcId
          modifies this`firstMissing
          invariant id < firstMissing <= nextRpcId
          invariant SlotsMatch(rpcs[..], id, nextRpcId, finished)
          invariant forall other: nat :: id <= other < firstMissing ==> other in finished
          decreases nextRpcId - firstMissing
        {
          firstMissing := firstMissing + 1;
        }
      }
      FirstMissingFromIs(finished, old(firstMissing), nextRpcId, firstMissing);
    }

    /**
     * Hands out a new id, or the sentinel 0 when the window is full (the
     * oldest missing RPC is `windowSize` ids behind).
     */
    method NewRpcId() returns (id: nat)
      requires Valid()
      modifies this, rpcs
      ensures Valid()
      ensures id == 0 <==> old(firstMissing) + windowSize == old(nextRpcId)
      ensures firstMissing == old(firstMissing) && finished == old(finished)
      ensures id == 0 ==> nextRpcId == old(nextRpcId) && issued == old(issued) && rpcs[..] == old(rpcs[..])
      ensures id != 0 ==> id == old(nextRpcId) && nextRpcId == id + 1
      ensures id != 0 ==> rpcs[..] == old(rpcs[..])[id % windowSize := false]
      ensures id != 0 ==> id !in old(issued) && issued == old(issued) + {id}
      ensures id != 0 ==> forall earlier :: earlier in old(issued) ==> earlier < id
    {
      if firstMissing + windowSize == nextRpcId {
        return 0;
      }
      ClearSlot(rpcs[..], firstMissing, nextRpcId, finished);
      rpcs[nextRpcId % windowSize] := false;
      id := nextRpcId;
      issued := issued + {id};
      nextRpcId := nextRpcId + 1;
    }

    /**
     * The acknowledgment watermark sent with new RPCs: every id up to it has
     * finished, and the id just above it, if issued, has not.
     */
    function AckId(): (r: nat)
      reads this, rpcs
      requires Valid()
      ensures forall id: nat :: 1 <= id <= r ==> id in finished
      ensures r + 1 in issued ==> r + 1 !in finished
      ensures r < nextRpcId
    {
      firstMissing - 1
    }
  }

  /** A window of four hands out ids 1 to 4 and then answers a fifth request with the sentinel 0. */
  method WindowOfFourFills() returns (ids: seq<nat>, refused: nat)
    ensures ids == [1, 2, 3, 4] && refused == 0
  {
    var t := new RpcTracker(4);
    var a := t.NewRpcId();
    var b := t.NewRpcId();
    var c := t.NewRpcId();
    var d := t.NewRpcId();
    ids := [a, b, c, d];
    refused := t.NewRpcId();
  }

  /**
   * With ids 1 to 4 outstanding, finishing 2, 3 and 4 leaves the watermark at
   * 0 because 1 is missing; finishing 1 then moves it to 4.
   */
  method WatermarkWaitsForGap() returns (ackBefore: nat, ackAfter: nat)
    ensures ackBefore == 0 && ackAfter == 4
  {
    var t := new RpcTracker(4);
    var a := t.NewRpcId();
    var b := t.NewRpcId();
    var c := t.NewRpcId();
    var d := t.NewRpcId();
    t.RpcFinished(2);
    t.RpcFinished(3);
    t.RpcFinished(4);
    ackBefore := t.AckId();
    t.RpcFinished(1);
    ackAfter := t.AckId();
  }
}
