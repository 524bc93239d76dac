/** The process-wide clock that stamps every save, issued by a compare-and-exchange loop. */
module ProjectionClock {
  import opened Wrappers

  const I64_MAX := 0x7FFF_FFFF_FFFF_FFFF

  const I64_MIN := -0x8000_0000_0000_0000

  type I64 = n: int | I64_MIN <= n <= I64_MAX

  function SaturatingAdd(a: I64, b: nat): I64 {
    if a + b > I64_MAX then I64_MAX else a + b
  }

  function NextStamp(now: I64, current: I64): I64 {
    var successor := SaturatingAdd(current, 1);
    if now >= successor then now else successor
  }

  /** Each stamp is larger than every stamp issued before it, except that the maximum can repeat. */
  ghost predicate Increasing(stamps: seq<I64>) {
    forall i, j | 0 <= i < j < |stamps| :: stamps[i] < stamps[j] || stamps[i] == stamps[j] == I64_MAX
  }

  function Last(stamps: seq<I64>): I64 { if stamps == [] then 0 else stamps[|stamps| - 1] }

  class Clock {
    /** `PROJECTION_PERSIST_AT` */
    var persistAt: I64
    /** Every stamp returned so far by any thread, in the order of the successful exchanges. */
    ghost var issued: seq<I64>

    ghost predicate Valid()
      reads this
    {
      && 0 <= persistAt
      && Increasing(issued)
      && (forall i | 0 <= i < |issued| :: 0 < issued[i] <= persistAt)
      && persistAt == Last(issued)
    }

    constructor ()
      ensures Valid() && issued == []
    {
      persistAt, issued := 0, [];
    }

    /** The atomic step: exchange if the value is still `current`, else report the value found. */
    method CompareExchange(current: I64, next: I64) returns (r: Result<I64, I64>)
      requires Valid() && next > 0 && (next > current || next == current == I64_MAX)
      modifies this
      ensures Valid()
      ensures r.Ok? <==> old(persistAt) == current
      ensures r.Ok? ==> persistAt == next && issued == old(issued) + [next]
      ensures r.Err? ==> r.error == persistAt == old(persistAt) && issued == old(issued)
    {
      if persistAt == current {
        persistAt := next;
        issued := issued + [next];
        r := Ok(current);
      } else {
        r := Err(persistAt);
      }
    }

    /** Other threads complete `count` calls in the meantime, each with its own reading of the wall clock. */
    method OthersIssue(count: nat)
      requires Valid()
      modifies this
      ensures Valid() && old(issued) <= issued && |issued| == |old(issued)| + count
    {
      for i := 0 to count
        invariant Valid() && old(issued) <= issued && |issued| == |old(issued)| + i
      {
        var now: I64 :| I64_MIN <= now <= I64_MAX;
        var current := persistAt;
        var r := CompareExchange(current, NextStamp(now, current));
      }
    }

    /**
     `next_projection_persist_at`. Before its k-th exchange `interference[k]` calls of other threads
     complete. The stamp returned is positive, not before the wall clock, and larger than every stamp any
     thread has obtained earlier, unless the clock has reached the last representable instant; and it is no
     later than that takes: the wall clock, or one more than the last stamp obtained before it.
     */
    method NextProjectionPersistAt(now: I64, interference: seq<nat>) returns (stamp: I64)
      requires Valid()
      modifies this
      ensures Valid() && old(issued) <= issued
      ensures |issued| > |old(issued)| && issued[|issued| - 1] == stamp
      ensures stamp >= now && stamp > 0
      ensures forall i | 0 <= i < |issued| - 1 :: issued[i] < stamp || issued[i] == stamp == I64_MAX
      ensures var last := Last(issued[..|issued| - 1]);
              stamp == now || stamp == last + 1 || stamp == last == I64_MAX
    {
      var current := persistAt;
      var k := 0;
      while true
        invariant Valid() && old(issued) <= issued
        invariant 0 <= k <= |interference| && 0 <= current <= persistAt
        decreases |interference| - k, current != persistAt
      {
        if k < |interference| {
          OthersIssue(interference[k]);
          k := k + 1;
        }
        var next := NextStamp(now, current);
        ghost var before := issued;
        var r := CompareExchange(current, next);
        assert r.Ok? ==> issued[..|issued| - 1] == before;
        match r {
          case Ok(_) => return next;
          case Err(observed) => current := observed;
        }
      }
    }
  }
}
