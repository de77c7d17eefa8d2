/** The drop-oldest byte ring buffer, and the byte queue it implements. */
module RingBuffer {
  import opened Words

  // ---------- the abstract queue ----------

  /** The newest `size` bytes of `s`. */
  function Newest(s: seq<byte>, size: nat): (r: seq<byte>)
    ensures |r| == Min(|s|, size)
  {
    if |s| <= size then s else s[|s| - size..]
  }

  /** Adding: a block larger than the buffer is refused, otherwise the oldest bytes make room. */
  function Added(size: nat, q: seq<byte>, d: seq<byte>): (r: seq<byte>)
  {
    if |d| > size then q else Newest(q + d, size)
  }

  /** How many bytes a fetch of `len` returns: none at all if it asks for more than the buffer size. */
  function FetchCount(size: nat, q: seq<byte>, len: nat): (k: nat)
    ensures k <= |q|
  {
    if len > size then 0 else Min(len, |q|)
  }

  /**
   What adding and fetching mean: a block that fits is added at the end and exactly as many of the oldest bytes go as
   do not fit; a fetch returns what was asked for or all there is, and nothing if it asks for more than the size.
   */
  lemma QueueExactly(size: nat, q: seq<byte>, d: seq<byte>, len: nat)
    requires |q| <= size
    ensures |d| > size ==> Added(size, q, d) == q
    ensures |d| <= size ==>
      var gone := |q| + |d| - |Added(size, q, d)|;
      && gone == (if |q| + |d| > size then |q| + |d| - size else 0) && gone <= |q|
      && Added(size, q, d) == q[gone..] + d
    ensures FetchCount(size, q, len) <= len
    ensures len <= |q| ==> FetchCount(size, q, len) == len
    ensures |q| < len <= size ==> FetchCount(size, q, len) == |q|
    ensures len > size ==> FetchCount(size, q, len) == 0
  {
    if |q| + |d| > size >= |d| {
      assert (q + d)[|q| + |d| - size..] == q[|q| + |d| - size..] + d;
    } else {
      assert q[0..] == q;
    }
  }

  // ---------- the window of a circular array ----------

  function Wrap(size: nat, i: nat): nat
  {
    if i < size then i else i - size
  }

  /** `count` bytes of the circular array `s`, starting at `rp`. */
  function Window(s: seq<byte>, rp: nat, count: nat): (w: seq<byte>)
    requires rp <= |s| && count <= |s|
    ensures |w| == count
  {
    seq(count, i requires 0 <= i < count => s[Wrap(|s|, rp + i)])
  }

  /** `t` is `s` with the block `d` stored at `wp`, in two parts if it wraps. */
  ghost predicate Stored(s: seq<byte>, wp: nat, d: seq<byte>, t: seq<byte>)
    requires wp <= |s| && |d| <= |s|
  {
    && |t| == |s|
    && (forall i {:trigger d[i]} :: 0 <= i < |d| ==> t[Wrap(|s|, wp + i)] == d[i])
    && (forall i {:trigger t[i]} :: 0 <= i < |s| && !(wp <= i < wp + |d|) && i + |s| >= wp + |d| ==> t[i] == s[i])
  }

  lemma FitsAt(s: seq<byte>, rp: nat, count: nat, d: seq<byte>, t: seq<byte>, i: nat)
    requires rp < |s| && count + |d| <= |s| && Stored(s, Wrap(|s|, rp + count), d, t)
    requires i < count + |d|
    ensures t[Wrap(|s|, rp + i)] == if i < count then s[Wrap(|s|, rp + i)] else d[i - count]
  {
    if i >= count {
      assert d[i - count] == t[Wrap(|s|, Wrap(|s|, rp + count) + (i - count))];
    }
  }

  lemma AddFits(s: seq<byte>, rp: nat, count: nat, d: seq<byte>, t: seq<byte>)
    requires rp < |s| && count + |d| <= |s| && Stored(s, Wrap(|s|, rp + count), d, t)
    ensures Window(t, rp, count + |d|) == Window(s, rp, count) + d
  {
    var w := Window(t, rp, count + |d|);
    forall i | 0 <= i < count + |d|
      ensures w[i] == (Window(s, rp, count) + d)[i]
    {
      FitsAt(s, rp, count, d, t, i);
    }
  }

  lemma OverflowsAt(s: seq<byte>, rp: nat, count: nat, d: seq<byte>, t: seq<byte>, i: nat)
    requires rp < |s| && count <= |s| && |d| <= |s| < count + |d| && Stored(s, Wrap(|s|, rp + count), d, t)
    requires i < |s|
    ensures var wp, k := Wrap(|s|, Wrap(|s|, rp + count) + |d|), count + |d| - |s| + i;
      t[Wrap(|s|, wp + i)] == if k < count then s[Wrap(|s|, rp + k)] else d[k - count]
  {
    var k := count + |d| - |s| + i;
    if k >= count {
      assert d[k - count] == t[Wrap(|s|, Wrap(|s|, rp + count) + (k - count))];
    }
  }

  lemma AddOverflows(s: seq<byte>, rp: nat, count: nat, d: seq<byte>, t: seq<byte>)
    requires rp < |s| && count <= |s| && |d| <= |s| < count + |d| && Stored(s, Wrap(|s|, rp + count), d, t)
    ensures var wp := Wrap(|s|, Wrap(|s|, rp + count) + |d|);
      Window(t, wp, |s|) == Newest(Window(s, rp, count) + d, |s|)
  {
    var wp := Wrap(|s|, Wrap(|s|, rp + count) + |d|);
    var w, all := Window(t, wp, |s|), Window(s, rp, count) + d;
    var lost := count + |d| - |s|;
    var kept := all[lost..];
    forall i | 0 <= i < |s|
      ensures w[i] == kept[i]
    {
      OverflowsAt(s, rp, count, d, t, i);
      assert kept[i] == all[lost + i];
    }
  }

  lemma AddToWindow(s: seq<byte>, rp: nat, count: nat, d: seq<byte>, t: seq<byte>)
    requires rp < |s| && count <= |s| && |d| <= |s| && Stored(s, Wrap(|s|, rp + count), d, t)
    ensures Added(|s|, Window(s, rp, count), d) ==
      if count + |d| > |s| then Window(t, Wrap(|s|, Wrap(|s|, rp + count) + |d|), |s|)
      else Window(t, rp, count + |d|)
  {
    if count + |d| > |s| {
      AddOverflows(s, rp, count, d, t);
    } else {
      AddFits(s, rp, count, d, t);
    }
  }

  /** The state of the buffer after a block was stored and the positions moved on. */
  lemma AddResult(s: seq<byte>, oldRp: nat, oldCount: nat, d: seq<byte>, t: seq<byte>, wp: nat, rp: nat, count: nat)
    requires oldCount <= |s| && |d| <= |s| && (if |s| == 0 then oldRp == 0 else oldRp < |s|)
    requires Stored(s, Wrap(|s|, oldRp + oldCount), d, t) && wp == Wrap(|s|, Wrap(|s|, oldRp + oldCount) + |d|)
    requires rp == if oldCount + |d| > |s| then wp else oldRp
    requires count == if oldCount + |d| > |s| then |s| else oldCount + |d|
    ensures wp == Wrap(|s|, rp + count) && count <= |t| == |s|
    ensures if |s| == 0 then wp == 0 && rp == 0 else wp < |s| && rp < |s|
    ensures Window(t, rp, count) == Added(|s|, Window(s, oldRp, oldCount), d)
  {
    if |s| > 0 {
      AddToWindow(s, oldRp, oldCount, d, t);
    }
  }

  lemma WindowSplit(s: seq<byte>, rp: nat, count: nat, k: nat)
    requires rp < |s| && k <= count <= |s|
    ensures Window(s, rp, k) == Window(s, rp, count)[..k]
    ensures Window(s, Wrap(|s|, rp + k), count - k) == Window(s, rp, count)[k..]
  {
    var w, rest := Window(s, rp, count), Window(s, Wrap(|s|, rp + k), count - k);
    forall i | 0 <= i < count - k
      ensures rest[i] == w[k + i]
    {
      assert Wrap(|s|, Wrap(|s|, rp + k) + i) == Wrap(|s|, rp + (k + i));
    }
    assert rest == w[k..];
    assert Window(s, rp, k) == w[..k];
  }

  lemma WindowIsSlices(s: seq<byte>, rp: nat, k: nat)
    requires rp < |s| && k <= |s|
    ensures Window(s, rp, k) == if rp + k <= |s| then s[rp..rp + k] else s[rp..] + s[..rp + k - |s|]
  {
    var w := Window(s, rp, k);
    var v := if rp + k <= |s| then s[rp..rp + k] else s[rp..] + s[..rp + k - |s|];
    forall i | 0 <= i < k
      ensures w[i] == v[i]
    {
      assert w[i] == s[Wrap(|s|, rp + i)];
      if rp + k <= |s| || rp + i < |s| {
        assert v[i] == s[rp + i];
      } else {
        assert v[i] == s[..rp + k - |s|][rp + i - |s|];
      }
    }
  }

  lemma DropAppend(s: seq<byte>, d: seq<byte>, k: nat)
    requires k <= |s|
    ensures (s + d)[k..] == s[k..] + d
  {
  }

  lemma DropTwice(s: seq<byte>, k: nat, j: nat)
    requires k + j <= |s|
    ensures s[k..][j..] == s[k + j..]
  {
  }

  /** Keeping the newest bytes early does not change which bytes are the newest later. */
  lemma {:induction false} NewestAppend(s: seq<byte>, d: seq<byte>, size: nat)
    ensures Newest(Newest(s, size) + d, size) == Newest(s + d, size)
  {
    if |s| > size {
      var k := |s| - size;
      DropAppend(s, d, k);
      DropTwice(s + d, k, |d|);
    }
  }

  // ---------- the implementation ----------

  class Ring {
    var data: array<byte>
    var wp: nat
    var rp: nat
    var count: nat

    ghost predicate Valid()
      reads this
    {
      && count <= data.Length
      && (data.Length == 0 ==> wp == 0 && rp == 0)
      && (data.Length > 0 ==> wp < data.Length && rp < data.Length)
      && wp == Wrap(data.Length, rp + count)
    }

    /** The bytes held, oldest first. */
    ghost function Contents(): (q: seq<byte>)
      requires Valid()
      reads this, data
      ensures |q| == count
    {
      Window(data[..], rp, count)
    }

    constructor (size: nat)
      ensures Valid() && fresh(data) && data.Length == size && Contents() == []
    {
      data := new byte[size](_ => 0);
      wp, rp, count := 0, 0, 0;
    }

    /** Copy a block to the write position and move it on, in two parts if it wraps. */
    method Store(d: seq<byte>)
      requires Valid() && |d| <= data.Length
      modifies `wp, data
      ensures wp == Wrap(data.Length, old(wp) + |d|)
      ensures Stored(old(data[..]), old(wp), d, data[..])
    {
      var available := data.Length - wp;
      if |d| <= available {
        forall i | 0 <= i < |d| { data[wp + i] := d[i]; }
        wp := wp + |d|;
      } else {
        forall i | 0 <= i < available { data[wp + i] := d[i]; }
        forall i | 0 <= i < |d| - available { data[i] := d[available + i]; }
        wp := |d| - available;
      }
      if wp == data.Length {
        wp := 0;
      }
    }

    method Add(d: seq<byte>)
      requires Valid()
      modifies this, data
      ensures Valid() && data == old(data)
      ensures Contents() == Added(data.Length, old(Contents()), d)
    {
      if |d| <= data.Length {
        ghost var s, oldRp, oldCount := data[..], rp, count;
        Store(d);
        Advance(|d|);
        AddResult(s, oldRp, oldCount, d, data[..], wp, rp, count);
      }
    }

    /** The read position and the count after `k` bytes were stored: an overflow makes the oldest byte the next. */
    method Advance(k: nat)
      requires count <= data.Length
      modifies `rp, `count
      ensures rp == if old(count) + k > data.Length then wp else old(rp)
      ensures count == if old(count) + k > data.Length then data.Length else old(count) + k
    {
      if count + k > data.Length {
        rp := wp;
        count := data.Length;
      } else {
        count := count + k;
      }
    }

    method Fetch(len: nat) returns (out: seq<byte>)
      requires Valid()
      modifies `rp, `count
      ensures Valid()
      ensures var k := FetchCount(data.Length, old(Contents()), len);
        out == old(Contents())[..k] && Contents() == old(Contents())[k..]
    {
      if len > data.Length || count == 0 {
        return [];
      }
      var realLen := if len < count then len else count;
      var available := data.Length - rp;
      WindowSplit(data[..], rp, count, realLen);
      WindowIsSlices(data[..], rp, realLen);
      if realLen <= available {
        out := data[rp..rp + realLen];
        rp := rp + realLen;
      } else {
        out := data[rp..] + data[..realLen - available];
        rp := realLen - available;
      }
      if rp == data.Length {
        rp := 0;
      }
      count := count - realLen;
    }
  }

  // ---------- every run of operations ----------

  datatype Op = Add(block: seq<byte>) | Fetch(len: nat)

  /**
   A run from the empty buffer: every accepted byte so far, what was fetched, what is held, how much was
   dropped, and for each byte that has left the buffer, in order, whether it was fetched.
   */
  datatype History = History(stream: seq<byte>, held: seq<byte>, fetched: seq<byte>, dropped: nat, kept: seq<bool>)

  function Marks(mark: bool, k: nat): (m: seq<bool>)
    ensures |m| == k
  {
    if k == 0 then [] else Marks(mark, k - 1) + [mark]
  }

  function Apply(size: nat, h: History, op: Op): (r: History)
  {
    match op
    case Add(d) =>
      if |d| > size then h else
      var held := Added(size, h.held, d);
      var gone := |h.held| + |d| - |held|;
      History(h.stream + d, held, h.fetched, h.dropped + gone, h.kept + Marks(false, gone))
    case Fetch(len) =>
      var k := FetchCount(size, h.held, len);
      h.(held := h.held[k..], fetched := h.fetched + h.held[..k], kept := h.kept + Marks(true, k))
  }

  function Run(size: nat, ops: seq<Op>): (h: History)
  {
    if ops == [] then History([], [], [], 0, [])
    else Apply(size, Run(size, ops[..|ops| - 1]), ops[|ops| - 1])
  }

  predicate Suffix(part: seq<byte>, whole: seq<byte>)
  {
    |part| <= |whole| && part == whole[|whole| - |part|..]
  }

  lemma SuffixDrop(part: seq<byte>, whole: seq<byte>, k: nat)
    requires Suffix(part, whole) && k <= |part|
    ensures Suffix(part[k..], whole)
  {
    DropTwice(whole, |whole| - |part|, k);
  }

  lemma SuffixAppend(part: seq<byte>, whole: seq<byte>, d: seq<byte>)
    requires Suffix(part, whole)
    ensures Suffix(part + d, whole + d)
  {
    DropAppend(whole, d, |whole| - |part|);
  }

  ghost predicate Accounted(size: nat, h: History)
  {
    && |h.held| <= size
    && |h.stream| == |h.fetched| + h.dropped + |h.held|
    && Suffix(h.held, h.stream)
    && (h.dropped == 0 ==> h.stream == h.fetched + h.held)
  }

  lemma Associate(a: seq<byte>, b: seq<byte>, c: seq<byte>)
    ensures (a + b) + c == a + (b + c)
  {
  }

  lemma AddAccounted(size: nat, h: History, d: seq<byte>)
    requires Accounted(size, h) && |d| <= size
    ensures Accounted(size, Apply(size, h, Add(d)))
  {
    var all := h.held + d;
    SuffixAppend(h.held, h.stream, d);
    SuffixDrop(all, h.stream + d, |all| - |Newest(all, size)|);
    Associate(h.fetched, h.held, d);
  }

  lemma FetchAccounted(size: nat, h: History, len: nat)
    requires Accounted(size, h)
    ensures Accounted(size, Apply(size, h, Fetch(len)))
  {
    var k := FetchCount(size, h.held, len);
    SuffixDrop(h.held, h.stream, k);
    Associate(h.fetched, h.held[..k], h.held[k..]);
    assert h.held[..k] + h.held[k..] == h.held;
  }

  /**
   Whatever is added and fetched: the buffer holds the newest bytes of everything accepted, accepted
   bytes are fetched, dropped or held, and the bytes fetched so far followed by the bytes held
   are the accepted stream if and only if nothing was dropped.
   */
  lemma {:induction false} EveryRunAccounted(size: nat, ops: seq<Op>)
    ensures Accounted(size, Run(size, ops))
    ensures var h := Run(size, ops); h.dropped == 0 <==> h.stream == h.fetched + h.held
  {
    if ops != [] {
      EveryRunAccounted(size, ops[..|ops| - 1]);
      var h := Run(size, ops[..|ops| - 1]);
      match ops[|ops| - 1]
      case Add(d) => if |d| <= size { AddAccounted(size, h, d); }
      case Fetch(len) => FetchAccounted(size, h, len);
    }
  }

  // ---------- what is fetched when bytes were dropped ----------

  /** The marked bytes, in order. */
  function Keep(s: seq<byte>, marks: seq<bool>): (r: seq<byte>)
    requires |s| == |marks|
  {
    if s == [] then [] else
    Keep(s[..|s| - 1], marks[..|s| - 1]) + if marks[|s| - 1] then [s[|s| - 1]] else []
  }

  function Unmarked(marks: seq<bool>): (k: nat)
  {
    if marks == [] then 0 else Unmarked(marks[..|marks| - 1]) + Bit(!marks[|marks| - 1])
  }

  /** More bytes leave the buffer with the same fate. */
  lemma {:induction false} KeepMore(s: seq<byte>, marks: seq<bool>, more: seq<byte>, mark: bool)
    requires |s| == |marks|
    ensures Keep(s + more, marks + Marks(mark, |more|)) == Keep(s, marks) + if mark then more else []
    ensures Unmarked(marks + Marks(mark, |more|)) == Unmarked(marks) + if mark then 0 else |more|
  {
    if more == [] {
      assert s + more == s && marks + Marks(mark, 0) == marks;
    } else {
      var n := |more| - 1;
      KeepMore(s, marks, more[..n], mark);
      assert (s + more)[..|s| + n] == s + more[..n];
      assert (marks + Marks(mark, n + 1))[..|s| + n] == marks + Marks(mark, n);
      assert more[..n] + [more[n]] == more;
    }
  }

  /** The fetched bytes are the accepted ones that left the buffer, without those dropped, in order. */
  predicate Explained(h: History)
  {
    && |h.kept| + |h.held| == |h.stream|
    && h.fetched == Keep(h.stream[..|h.kept|], h.kept)
    && h.dropped == Unmarked(h.kept)
  }

  /** `k` bytes leave a buffer that holds a suffix of the stream. */
  lemma {:induction false} LeaveFront(stream: seq<byte>, held: seq<byte>, kept: seq<bool>, k: nat, mark: bool)
    requires Suffix(held, stream) && |kept| + |held| == |stream| && k <= |held|
    ensures Keep(stream[..|kept| + k], kept + Marks(mark, k))
         == Keep(stream[..|kept|], kept) + if mark then held[..k] else []
    ensures Unmarked(kept + Marks(mark, k)) == Unmarked(kept) + if mark then 0 else k
  {
    PrefixGrows(stream, held, |kept|, k);
    KeepMore(stream[..|kept|], kept, held[..k], mark);
  }

  lemma PrefixGrows(stream: seq<byte>, held: seq<byte>, n: nat, k: nat)
    requires n + |held| == |stream| && held == stream[n..] && k <= |held|
    ensures stream[..n + k] == stream[..n] + held[..k]
  {
  }

  lemma {:induction false} AddExplained(size: nat, h: History, d: seq<byte>)
    requires Accounted(size, h) && Explained(h) && |d| <= size
    ensures Explained(Apply(size, h, Add(d)))
  {
    var all := h.held + d;
    var gone := |all| - |Newest(all, size)|;
    SuffixAppend(h.held, h.stream, d);
    StreamGrows(h.stream, d, h.held, h.kept, gone);
    var r := Apply(size, h, Add(d));
    assert r == History(h.stream + d, Newest(all, size), h.fetched, h.dropped + gone, h.kept + Marks(false, gone));
  }

  /** Bytes are added and the oldest `gone` of all leave. */
  lemma {:induction false} StreamGrows(stream: seq<byte>, d: seq<byte>, held: seq<byte>, kept: seq<bool>, gone: nat)
    requires Suffix(held + d, stream + d) && |kept| + |held| == |stream| && gone <= |held + d|
    ensures Keep((stream + d)[..|kept| + gone], kept + Marks(false, gone)) == Keep(stream[..|kept|], kept)
    ensures Unmarked(kept + Marks(false, gone)) == Unmarked(kept) + gone
  {
    LeaveFront(stream + d, held + d, kept, gone, false);
    assert (stream + d)[..|kept|] == stream[..|kept|];
  }

  lemma FetchExplained(size: nat, h: History, len: nat)
    requires Accounted(size, h) && Explained(h)
    ensures Explained(Apply(size, h, Fetch(len)))
  {
    LeaveFront(h.stream, h.held, h.kept, FetchCount(size, h.held, len), true);
  }

  /** In every run, overflowing or not, the bytes fetched are the accepted stream with the dropped bytes removed. */
  lemma {:induction false} EveryRunExplained(size: nat, ops: seq<Op>)
    ensures Explained(Run(size, ops))
  {
    if ops != [] {
      EveryRunExplained(size, ops[..|ops| - 1]);
      EveryRunAccounted(size, ops[..|ops| - 1]);
      var h := Run(size, ops[..|ops| - 1]);
      match ops[|ops| - 1]
      case Add(d) => if |d| <= size { AddExplained(size, h, d); }
      case Fetch(len) => FetchExplained(size, h, len);
    }
  }

  /** Without fetches the buffer is the last min(size, total) bytes ever accepted. */
  lemma {:induction false} AddsOnlyKeepNewest(size: nat, ops: seq<Op>)
    requires forall i :: 0 <= i < |ops| ==> ops[i].Add?
    ensures Run(size, ops).held == Newest(Run(size, ops).stream, size)
  {
    if ops != [] {
      var before := ops[..|ops| - 1];
      AddsOnlyKeepNewest(size, before);
      var h, d := Run(size, before), ops[|ops| - 1].block;
      assert ops[|ops| - 1].Add?;
      NewestAppend(h.stream, d, size);
    }
  }
}
