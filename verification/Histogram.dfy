/** The round trip histogram: one bucket per microsecond between the configured bounds. */
module Histogram {
  import opened Words

  /** How many samples lie in [lo, hi). */
  function CountIn(samples: seq<nat>, lo: nat, hi: nat): (k: nat)
  {
    if samples == [] then 0
    else CountIn(samples[..|samples| - 1], lo, hi) + if lo <= samples[|samples| - 1] < hi then 1 else 0
  }

  /** How many samples are at least `lo`. */
  function CountFrom(samples: seq<nat>, lo: nat): (k: nat)
  {
    if samples == [] then 0
    else CountFrom(samples[..|samples| - 1], lo) + if lo <= samples[|samples| - 1] then 1 else 0
  }

  /** Bucket contents after `samples`: bucket `k` counts the samples equal to min + k. */
  function Buckets(samples: seq<nat>, min: nat, max: nat): (b: seq<nat>)
    requires min <= max
    ensures |b| == max - min
    ensures forall k :: 0 <= k < |b| ==> b[k] == CountIn(samples, min + k, min + k + 1)
  {
    if min == max then [] else Buckets(samples, min, max - 1) + [CountIn(samples, max - 1, max)]
  }

  function Sum(b: seq<nat>): (s: nat)
  {
    if b == [] then 0 else Sum(b[..|b| - 1]) + b[|b| - 1]
  }

  /** One more sample: its bucket grows by one, if it has a bucket. */
  lemma BucketsStep(samples: seq<nat>, rtt: nat, min: nat, max: nat, was: seq<nat>, now: seq<nat>)
    requires min <= max && was == Buckets(samples, min, max) && |now| == |was|
    requires forall k :: 0 <= k < |was| ==> now[k] == was[k] + if min + k == rtt then 1 else 0
    ensures now == Buckets(samples + [rtt], min, max)
  {
    var next := samples + [rtt];
    assert next[..|next| - 1] == samples;
    var b := Buckets(next, min, max);
    forall k | 0 <= k < |was|
      ensures now[k] == b[k]
    {
      assert was[k] == CountIn(samples, min + k, min + k + 1);
    }
  }

  lemma CountsStep(samples: seq<nat>, rtt: nat, lo: nat, hi: nat)
    ensures CountIn(samples + [rtt], lo, hi) == CountIn(samples, lo, hi) + if lo <= rtt < hi then 1 else 0
    ensures CountFrom(samples + [rtt], lo) == CountFrom(samples, lo) + if lo <= rtt then 1 else 0
  {
    var next := samples + [rtt];
    assert next[..|next| - 1] == samples;
  }

  class RttHistogram {
    const min: nat
    const max: nat
    const data: array<nat>
    var underflow: nat
    var overflow: nat
    /** Every round trip time recorded since start. */
    ghost var samples: seq<nat>

    ghost predicate Valid()
      reads this, data
    {
      && min <= max && data.Length == max - min
      && data[..] == Buckets(samples, min, max)
      && underflow == CountIn(samples, 0, min)
      && overflow == CountFrom(samples, max)
    }

    /** histogram_init: the bounds are configured in nanoseconds, the check guarantees their order. */
    constructor (minimumNs: nat, maximumNs: nat)
      requires minimumNs <= maximumNs
      ensures Valid() && fresh(data) && samples == []
      ensures min == minimumNs / 1000 && max == maximumNs / 1000
    {
      min, max := minimumNs / 1000, maximumNs / 1000;
      data := new nat[maximumNs / 1000 - minimumNs / 1000](_ => 0);
      underflow, overflow := 0, 0;
      samples := [];
      new;
      assert data[..] == Buckets([], min, max);
    }

    method Update(rtt: nat)
      requires Valid() && rtt < TWO64 && min < TWO64
      modifies this, data
      ensures Valid() && samples == old(samples) + [rtt]
    {
      var sample := U64(rtt - min);
      ghost var was := data[..];
      CountsStep(samples, rtt, 0, min);
      CountsStep(samples, rtt, max, max);
      if rtt >= max {
        overflow := overflow + 1;
      } else if rtt < min {
        underflow := underflow + 1;
      } else {
        data[sample] := data[sample] + 1;
      }
      BucketsStep(samples, rtt, min, max, was, data[..]);
      samples := samples + [rtt];
    }
  }

  // ---------- conservation ----------

  lemma {:induction false} CountSplit(samples: seq<nat>, lo: nat, mid: nat, hi: nat)
    requires lo <= mid <= hi
    ensures CountIn(samples, lo, hi) == CountIn(samples, lo, mid) + CountIn(samples, mid, hi)
  {
    if samples != [] {
      CountSplit(samples[..|samples| - 1], lo, mid, hi);
    }
  }

  lemma {:induction false} EmptyRange(samples: seq<nat>, lo: nat)
    ensures CountIn(samples, lo, lo) == 0
  {
    if samples != [] {
      EmptyRange(samples[..|samples| - 1], lo);
    }
  }

  lemma {:induction false} BucketSum(samples: seq<nat>, min: nat, max: nat)
    requires min <= max
    ensures Sum(Buckets(samples, min, max)) == CountIn(samples, min, max)
  {
    if min == max {
      EmptyRange(samples, min);
      assert Buckets(samples, min, max) == [];
    } else {
      BucketSum(samples, min, max - 1);
      CountSplit(samples, min, max - 1, max);
      var b := Buckets(samples, min, max);
      assert b[..|b| - 1] == Buckets(samples, min, max - 1);
    }
  }

  lemma {:induction false} EverySampleCounted(samples: seq<nat>, max: nat)
    ensures CountIn(samples, 0, max) + CountFrom(samples, max) == |samples|
  {
    if samples != [] {
      EverySampleCounted(samples[..|samples| - 1], max);
    }
  }

  /** Buckets, underflow and overflow together are exactly the round trips recorded, over every run. */
  lemma NothingLost(samples: seq<nat>, min: nat, max: nat)
    requires min <= max
    ensures Sum(Buckets(samples, min, max)) + CountIn(samples, 0, min) + CountFrom(samples, max) == |samples|
  {
    BucketSum(samples, min, max);
    CountSplit(samples, 0, min, max);
    EverySampleCounted(samples, max);
  }
}
