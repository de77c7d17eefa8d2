/**
 The order of the PROFINET traffic classes: the first active class starts the cycle on a timer, every
 other class is woken by its predecessor.
 */
module ThreadChain {
  import opened Words

  const CLASSES: nat := 8
  const TSN_HIGH: nat := 0
  const TSN_LOW: nat := 1
  const RTC: nat := 2

  /** find_next_pn_thread: the switch falls through to the next class until one is active. */
  function FindNext(active: seq<bool>, i: nat): (next: Option<nat>)
    requires |active| == CLASSES && i < CLASSES
    ensures next.Some? ==> i < next.value < CLASSES && active[next.value]
    ensures forall j :: i < j < (if next.Some? then next.value else CLASSES) ==> !active[j]
    decreases CLASSES - i
  {
    if i == CLASSES - 1 then None
    else if active[i + 1] then Some(i + 1)
    else FindNext(active, i + 1)
  }

  /** The classes woken one after the other, starting with class `i`. */
  function Chain(active: seq<bool>, i: nat): (c: seq<nat>)
    requires |active| == CLASSES && i < CLASSES
    ensures |c| > 0 && c[0] == i
    ensures forall k :: 0 <= k < |c| ==> i <= c[k] < CLASSES
    decreases CLASSES - i
  {
    var next := FindNext(active, i);
    if next.None? then [i] else [i] + Chain(active, next.value)
  }

  /** The class at the end of the chain. */
  function Last(active: seq<bool>, i: nat): (l: nat)
    requires |active| == CLASSES && i < CLASSES
    ensures l == Chain(active, i)[|Chain(active, i)| - 1]
    ensures i <= l < CLASSES && FindNext(active, l).None?
    decreases CLASSES - i
  {
    var next := FindNext(active, i);
    if next.None? then i else Last(active, next.value)
  }

  /** The class that starts the cycle, if PROFINET is in use. */
  function First(active: seq<bool>): (f: Option<nat>)
    requires |active| == CLASSES
    ensures f.Some? ==> f.value < CLASSES && active[f.value]
  {
    if active[TSN_HIGH] then Some(TSN_HIGH) else if active[RTC] then Some(RTC) else None
  }

  /** The chain visits exactly the active classes from its start on, each once and in order. */
  lemma {:induction false} ChainVisits(active: seq<bool>, i: nat)
    requires |active| == CLASSES && i < CLASSES && active[i]
    ensures var c := Chain(active, i);
      && (forall k, l :: 0 <= k < l < |c| ==> c[k] < c[l])
      && (forall j :: i <= j < CLASSES ==> (j in c <==> active[j]))
    decreases CLASSES - i
  {
    var next := FindNext(active, i);
    if next.Some? {
      ChainVisits(active, next.value);
    }
  }

  /**
   Every active class takes part in the cycle if and only if the low TSN class is not used without the
   high one.
   */
  lemma EveryClassTriggered(active: seq<bool>)
    requires |active| == CLASSES && First(active).Some?
    ensures (forall j :: 0 <= j < CLASSES && active[j] ==> j in Chain(active, First(active).value))
       <==> (active[TSN_LOW] ==> active[TSN_HIGH])
  {
    var f := First(active).value;
    ChainVisits(active, f);
    if active[TSN_LOW] && !active[TSN_HIGH] {
      assert TSN_LOW !in Chain(active, f);
    }
  }

  /** The low TSN class and RTC without the high TSN class: RTC starts the cycle and nobody wakes the low class. */
  lemma LowClassAlone()
    ensures var active := [false, true, true, false, false, false, false, false];
      First(active) == Some(RTC) && active[TSN_LOW] && TSN_LOW !in Chain(active, RTC)
  {
    var active := [false, true, true, false, false, false, false, false];
    assert forall k :: 0 <= k < |Chain(active, RTC)| ==> Chain(active, RTC)[k] >= RTC;
  }

  /** The links of the thread contexts, updated in place. */
  class Threads {
    const next: array<Option<nat>>
    const isFirst: array<bool>
    const isLast: array<bool>

    ghost predicate Valid()
    {
      next.Length == isFirst.Length == isLast.Length == CLASSES && isFirst != isLast
    }

    constructor ()
      ensures Valid() && fresh(next) && fresh(isFirst) && fresh(isLast)
      ensures forall i :: 0 <= i < CLASSES ==> !isFirst[i] && !isLast[i]
    {
      next := new Option<nat>[CLASSES](_ => None);
      isFirst := new bool[CLASSES](_ => false);
      isLast := new bool[CLASSES](_ => false);
    }

    method LinkAll(active: seq<bool>)
      requires Valid() && |active| == CLASSES
      modifies next
      ensures forall i :: 0 <= i < CLASSES ==> next[i] == FindNext(active, i)
    {
      for i := 0 to CLASSES
        invariant forall j :: 0 <= j < i ==> next[j] == FindNext(active, j)
      {
        next[i] := FindNext(active, i);
      }
    }

    /** Follow the links to the end. */
    method FindLast(active: seq<bool>, first: nat) returns (last: nat)
      requires Valid() && |active| == CLASSES && first < CLASSES
      requires forall i :: 0 <= i < CLASSES ==> next[i] == FindNext(active, i)
      ensures last == Last(active, first)
    {
      last := first;
      while next[last].Some?
        invariant last < CLASSES && Last(active, last) == Last(active, first)
        decreases CLASSES - last
      {
        last := next[last].value;
      }
    }

    /** link_pn_threads; false stands for an invalid configuration. */
    method Link(active: seq<bool>, genericL2: bool) returns (ok: bool)
      requires Valid() && |active| == CLASSES
      requires forall i :: 0 <= i < CLASSES ==> !isFirst[i] && !isLast[i]
      modifies next, isFirst, isLast
      ensures forall i :: 0 <= i < CLASSES ==> next[i] == FindNext(active, i)
      ensures ok <==> First(active).Some? || genericL2
      ensures forall i :: 0 <= i < CLASSES ==> (isFirst[i] <==> First(active) == Some(i))
      ensures forall i :: 0 <= i < CLASSES ==>
        (isLast[i] <==> First(active).Some? && i == Last(active, First(active).value))
    {
      LinkAll(active);
      var t;
      if active[TSN_HIGH] {
        isFirst[TSN_HIGH] := true;
        t := TSN_HIGH;
      } else if active[RTC] {
        isFirst[RTC] := true;
        t := RTC;
      } else {
        return genericL2;
      }
      var last := FindLast(active, t);
      isLast[last] := true;
      return true;
    }
  }
}
