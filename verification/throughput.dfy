/**
 * Byte accounting (src/transfer.py, class `Throughput`).  The clock reading is
 * an abstract timestamp passed in by the caller; the float rate is not modelled.
 */
module Accounting {
  import opened Wrappers

  type Timestamp = nat

  /** Total of a list of byte counts. */
  function Sum(sizes: seq<nat>): nat
  {
    if sizes == [] then 0 else sizes[0] + Sum(sizes[1..])
  }

  /** Adding one more count to the history adds it to the total. */
  lemma {:induction false} SumAppend(sizes: seq<nat>, size: nat)
    ensures Sum(sizes + [size]) == Sum(sizes) + size
  {
    if sizes != [] {
      assert (sizes + [size])[1..] == sizes[1..] + [size];
      SumAppend(sizes[1..], size);
    }
  }

  /** The total never decreases as the history grows. */
  lemma {:induction false} SumMonotone(sizes: seq<nat>, more: seq<nat>)
    ensures Sum(sizes) <= Sum(sizes + more)
  {
    if sizes != [] {
      assert (sizes + more)[1..] == sizes[1..] + more;
      SumMonotone(sizes[1..], more);
    }
  }

  class Throughput {
    var counter: nat
    var startTime: Option<Timestamp>
    /** Sizes and clock readings of every update so far, oldest first. */
    ghost var Sizes: seq<nat>
    ghost var Times: seq<Timestamp>

    /** The counter is the sum of all updates; the start is the time of the first one. */
    ghost predicate Valid()
      reads this
    {
      && counter == Sum(Sizes)
      && |Times| == |Sizes|
      && startTime == (if Times == [] then None else Some(Times[0]))
    }

    constructor ()
      ensures Valid() && Sizes == [] && Times == []
      ensures counter == 0 && startTime == None
    {
      counter := 0;
      startTime := None;
      Sizes := [];
      Times := [];
    }

    /** `update(size)` at clock reading `now`. */
    method Update(size: nat, now: Timestamp)
      requires Valid()
      modifies this
      ensures Valid()
      ensures Sizes == old(Sizes) + [size] && Times == old(Times) + [now]
      ensures counter == old(counter) + size
      ensures old(startTime).Some? ==> startTime == old(startTime)
      ensures old(startTime).None? ==> startTime == Some(now)
    {
      if startTime == None {
        startTime := Some(now);
      }
      counter := counter + size;
      SumAppend(Sizes, size);
      Sizes := Sizes + [size];
      Times := Times + [now];
    }
  }
}
