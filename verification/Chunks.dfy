/** The chunk chain of the pool allocator, as a value.

    The pool is tiled by chunks: a header of HEADER_SIZE units followed by
    `size` units. A chunk's offset is the total span of the chunks before it. */
module Chunks {
  import opened Wrappers

  const HEADER_SIZE: nat := 4

  datatype Status = Allocated | Free
  datatype Chunk = Chunk(size: nat, status: Status)
  type Chain = seq<Chunk>

  function Span(k: Chunk): nat {
    HEADER_SIZE + k.size
  }

  function Extent(c: Chain): nat {
    if c == [] then 0 else Span(c[0]) + Extent(c[1..])
  }

  /** Where chunk i starts; for i == |c|, where the chain ends. */
  function Offset(c: Chain, i: nat): nat
    requires i <= |c|
  {
    if i == 0 then 0 else Span(c[0]) + Offset(c[1..], i - 1)
  }

  /** No two neighbouring chunks are both free. */
  ghost predicate Coalesced(c: Chain) {
    forall i :: 0 < i < |c| ==> !(c[i - 1].status.Free? && c[i].status.Free?)
  }

  /** A chain that fills a pool of n units and has no free neighbours. */
  ghost predicate Canonical(c: Chain, n: nat) {
    Extent(c) == n && Coalesced(c)
  }

  /** The allocations of a chain that starts at `base`: header offset to size. */
  function LiveFrom(c: Chain, base: nat): map<nat, nat> {
    if c == [] then map[]
    else
      var rest := LiveFrom(c[1..], base + Span(c[0]));
      if c[0].status.Allocated? then rest[base := c[0].size] else rest
  }

  function Live(c: Chain): map<nat, nat> {
    LiveFrom(c, 0)
  }

  // ----- offsets -----

  lemma {:induction false} OffsetNext(c: Chain, i: nat)
    requires i < |c|
    ensures Offset(c, i + 1) == Offset(c, i) + Span(c[i])
  {
    if i > 0 {
      OffsetNext(c[1..], i - 1);
    }
  }

  lemma {:induction false} OffsetsApart(c: Chain, i: nat, j: nat)
    requires i < j <= |c|
    ensures Offset(c, i) + Span(c[i]) <= Offset(c, j) <= Extent(c)
  {
    if i > 0 {
      OffsetsApart(c[1..], i - 1, j - 1);
    } else if j > 1 {
      OffsetsApart(c[1..], 0, j - 1);
    }
  }

  /** A walk has seen the last chunk exactly when it has covered the extent. */
  lemma {:induction false} LastChunk(c: Chain, i: nat)
    requires i <= |c|
    ensures Offset(c, i) <= Extent(c)
    ensures i == |c| <==> Offset(c, i) == Extent(c)
  {
    if i > 0 {
      LastChunk(c[1..], i - 1);
    }
  }

  // ----- live allocations -----

  lemma {:induction false} LiveBounds(c: Chain, base: nat)
    ensures forall h :: h in LiveFrom(c, base) ==>
              base <= h && h + HEADER_SIZE + LiveFrom(c, base)[h] <= base + Extent(c)
  {
    if c != [] {
      LiveBounds(c[1..], base + Span(c[0]));
    }
  }

  /** A handle is live exactly when it is the offset of an allocated chunk. */
  lemma {:induction false} LiveIsAllocated(c: Chain, base: nat, i: nat)
    requires i < |c|
    ensures base + Offset(c, i) in LiveFrom(c, base) <==> c[i].status.Allocated?
    ensures c[i].status.Allocated? ==> LiveFrom(c, base)[base + Offset(c, i)] == c[i].size
  {
    LiveBounds(c[1..], base + Span(c[0]));
    if i > 0 {
      LiveIsAllocated(c[1..], base + Span(c[0]), i - 1);
    }
  }

  /** The chunk index behind a live handle. */
  lemma {:induction false} LiveIndex(c: Chain, base: nat, h: nat) returns (i: nat)
    requires h in LiveFrom(c, base)
    ensures i < |c| && base + Offset(c, i) == h && c[i] == Chunk(LiveFrom(c, base)[h], Allocated)
  {
    if h == base && c[0].status.Allocated? {
      i := 0;
    } else {
      var k := LiveIndex(c[1..], base + Span(c[0]), h);
      i := k + 1;
    }
  }

  /** The intervals of two live allocations never overlap, and both lie in the pool. */
  lemma LiveDisjoint(c: Chain, h: nat, g: nat)
    requires h in Live(c) && g in Live(c) && h < g
    ensures h + HEADER_SIZE + Live(c)[h] <= g
    ensures g + HEADER_SIZE + Live(c)[g] <= Extent(c)
  {
    var i := LiveIndex(c, 0, h);
    var j := LiveIndex(c, 0, g);
    LiveBounds(c, 0);
    if i < j {
      OffsetsApart(c, i, j);
    } else if j < i {
      OffsetsApart(c, j, i);
    }
  }

  // ----- the canonical form -----

  /** A chain without free neighbours is determined by the ground it covers and
      by its live allocations: between two allocations there is room for exactly
      one free chunk. */
  lemma {:induction false} CanonicalFrom(c: Chain, d: Chain, base: nat)
    requires Coalesced(c) && Coalesced(d)
    requires Extent(c) == Extent(d)
    requires LiveFrom(c, base) == LiveFrom(d, base)
    ensures c == d
  {
    if c == [] || d == [] {
      assert c == d;
    } else {
      var c', d' := c[1..], d[1..];
      LiveBounds(c', base + Span(c[0]));
      LiveBounds(d', base + Span(d[0]));
      assert base in LiveFrom(c, base) <==> c[0].status.Allocated?;
      assert base in LiveFrom(d, base) <==> d[0].status.Allocated?;
      if c[0].size < d[0].size {
        SecondIsLive(c, d, base);
      } else if d[0].size < c[0].size {
        SecondIsLive(d, c, base);
      } else {
        var cl, dl := LiveFrom(c', base + Span(c[0])), LiveFrom(d', base + Span(d[0]));
        assert cl == LiveFrom(c, base) - {base};
        assert dl == LiveFrom(d, base) - {base};
        CanonicalFrom(c', d', base + Span(c[0]));
        assert c == [c[0]] + c' && d == [d[0]] + d';
      }
    }
  }

  /** The chunk after a free first chunk is a live allocation that a longer
      first chunk of another chain would swallow. */
  lemma SecondIsLive(c: Chain, d: Chain, base: nat)
    requires Coalesced(c) && c != [] && d != [] && Extent(c) == Extent(d)
    requires c[0].size < d[0].size && c[0].status == d[0].status
    ensures LiveFrom(c, base) != LiveFrom(d, base)
  {
    LiveBounds(d[1..], base + Span(d[0]));
    if c[0].status.Free? {
      assert c[1..] != [] && c[1].status.Allocated?;
      assert base + Span(c[0]) in LiveFrom(c, base);
    } else {
      assert LiveFrom(c, base)[base] != LiveFrom(d, base)[base];
    }
  }

  lemma CanonicalUnique(c: Chain, d: Chain, n: nat)
    requires Canonical(c, n) && Canonical(d, n) && Live(c) == Live(d)
    ensures c == d
  {
    CanonicalFrom(c, d, 0);
  }

  // ----- the operations -----

  function Init(n: nat): (c: Chain)
    requires HEADER_SIZE <= n
    ensures Canonical(c, n) && Live(c) == map[]
  {
    var c := [Chunk(n - HEADER_SIZE, Free)];
    assert c[1..] == [] && LiveFrom(c[1..], n) == map[];
    c
  }

  predicate Fits(k: Chunk, t: nat) {
    k.status.Free? && k.size >= HEADER_SIZE + t
  }

  /** Index of the first chunk that fits, |c| when there is none. */
  function FirstFit(c: Chain, t: nat): (i: nat)
    ensures i <= |c|
    ensures i < |c| ==> Fits(c[i], t)
    ensures forall j :: 0 <= j < i ==> !Fits(c[j], t)
  {
    if c == [] || Fits(c[0], t) then 0 else 1 + FirstFit(c[1..], t)
  }

  /** Splits the fitting chunk i into an allocation of t units and a free remainder. */
  function Split(c: Chain, i: nat, t: nat): (d: Chain)
    requires i < |c| && Fits(c[i], t)
    ensures |d| == |c| + 1 && d[i] == Chunk(t, Allocated)
  {
    if i > 0 then [c[0]] + Split(c[1..], i - 1, t)
    else [Chunk(t, Allocated), Chunk(c[0].size - HEADER_SIZE - t, Free)] + c[1..]
  }

  function Malloc(c: Chain, t: nat): (Chain, Option<nat>) {
    var i := FirstFit(c, t);
    if i == |c| then (c, None) else (Split(c, i, t), Some(Offset(c, i)))
  }

  function Coalesce(c: Chain): Chain
    decreases |c|
  {
    if |c| < 2 then c
    else if c[0].status.Free? && c[1].status.Free? then
      Coalesce([Chunk(c[0].size + Span(c[1]), Free)] + c[2..])
    else [c[0]] + Coalesce(c[1..])
  }

  function Freed(c: Chain, i: nat): Chain
    requires i < |c|
  {
    c[i := Chunk(c[i].size, Free)]
  }

  function Release(c: Chain, i: nat): Chain
    requires i < |c|
  {
    Coalesce(Freed(c, i))
  }

  // ----- what the operations keep -----

  lemma {:induction false} SplitEffect(c: Chain, base: nat, i: nat, t: nat)
    requires i < |c| && Fits(c[i], t)
    ensures Extent(Split(c, i, t)) == Extent(c)
    ensures base + Offset(c, i) !in LiveFrom(c, base)
    ensures LiveFrom(Split(c, i, t), base) == LiveFrom(c, base)[base + Offset(c, i) := t]
  {
    var d, next := Split(c, i, t), base + Span(c[0]);
    LiveBounds(c[1..], next);
    if i > 0 {
      SplitEffect(c[1..], next, i - 1, t);
      assert d[1..] == Split(c[1..], i - 1, t);
    } else {
      assert d[1..][1..] == c[1..];
    }
  }

  lemma {:induction false} SplitCoalesced(c: Chain, i: nat, t: nat)
    requires i < |c| && Fits(c[i], t) && Coalesced(c)
    ensures Coalesced(Split(c, i, t))
    ensures Split(c, i, t)[0].status.Free? ==> c[0].status.Free?
  {
    var d := Split(c, i, t);
    if i > 0 {
      SplitCoalesced(c[1..], i - 1, t);
      assert d[1..] == Split(c[1..], i - 1, t);
      ConsCoalesced(c[0], d[1..]);
    } else {
      ConsCoalesced(d[1], c[1..]);
      ConsCoalesced(d[0], [d[1]] + c[1..]);
      assert d == [d[0]] + ([d[1]] + c[1..]);
    }
  }

  lemma ConsCoalesced(k: Chunk, c: Chain)
    requires Coalesced(c) && (c != [] && k.status.Free? ==> c[0].status.Allocated?)
    ensures Coalesced([k] + c)
  {
  }

  lemma SplitKeeps(c: Chain, i: nat, t: nat, n: nat)
    requires Canonical(c, n) && i < |c| && Fits(c[i], t)
    ensures Canonical(Split(c, i, t), n)
  {
    SplitEffect(c, 0, i, t);
    SplitCoalesced(c, i, t);
  }

  /** Complete first fit: a request fails exactly when no free chunk has room for
      two headers and t units, and then changes nothing. */
  lemma MallocFailsIffNoFit(c: Chain, t: nat)
    ensures Malloc(c, t).1 == None <==> forall k :: k in c && k.status.Free? ==> Span(k) < 2 * HEADER_SIZE + t
    ensures Malloc(c, t).1 == None ==> Malloc(c, t).0 == c
  {
    var i := FirstFit(c, t);
    if i < |c| {
      assert c[i] in c;
    }
  }

  /** A request that succeeds is served at an offset that fits, no higher than
      any other (i is arbitrary): one allocation of the requested size is added
      and no other is changed. */
  lemma MallocServesLowestFit(c: Chain, t: nat, h: nat, i: nat) returns (at: nat)
    requires Malloc(c, t).1 == Some(h)
    ensures at < |c| && Offset(c, at) == h && c[at].status.Free? && Span(c[at]) >= 2 * HEADER_SIZE + t
    ensures i < |c| && c[i].status.Free? && Span(c[i]) >= 2 * HEADER_SIZE + t ==> h <= Offset(c, i)
    ensures h !in Live(c) && Live(Malloc(c, t).0) == Live(c)[h := t]
  {
    at := FirstFit(c, t);
    SplitEffect(c, 0, at, t);
    if at < i < |c| {
      OffsetsApart(c, at, i);
    }
  }

  /** A fresh pool of n units, headers of 4, serves a first request at 0 as long as
      two headers and the request go into it. */
  lemma FreshPoolServes(n: nat, t: nat)
    requires HEADER_SIZE <= n
    ensures Malloc(Init(n), t).1 == if 8 + t <= n then Some(0) else None
  {
    assert Init(n)[1..] == [];
  }

  lemma {:induction false} FreeingEffect(c: Chain, base: nat, i: nat)
    requires i < |c| && c[i].status.Allocated?
    ensures Extent(Freed(c, i)) == Extent(c)
    ensures LiveFrom(Freed(c, i), base) == LiveFrom(c, base) - {base + Offset(c, i)}
  {
    var next := base + Span(c[0]);
    LiveBounds(c[1..], next);
    if i > 0 {
      FreeingEffect(c[1..], next, i - 1);
      assert Freed(c, i)[1..] == Freed(c[1..], i - 1);
    } else {
      assert Freed(c, i)[1..] == c[1..];
    }
  }

  lemma {:induction false} CoalesceEffect(c: Chain, base: nat)
    ensures Extent(Coalesce(c)) == Extent(c)
    ensures LiveFrom(Coalesce(c), base) == LiveFrom(c, base)
    ensures Coalesced(Coalesce(c))
    ensures c != [] ==> Coalesce(c) != [] && Coalesce(c)[0].status == c[0].status
    decreases |c|
  {
    if |c| >= 2 {
      if c[0].status.Free? && c[1].status.Free? {
        var d := [Chunk(c[0].size + Span(c[1]), Free)] + c[2..];
        CoalesceEffect(d, base);
        assert d[1..] == c[2..] == c[1..][1..];
      } else {
        CoalesceEffect(c[1..], base + Span(c[0]));
      }
    }
  }

  lemma ReleaseEffect(c: Chain, i: nat, n: nat)
    requires Extent(c) == n && i < |c| && c[i].status.Allocated?
    ensures Canonical(Release(c, i), n)
    ensures Live(Release(c, i)) == Live(c) - {Offset(c, i)}
  {
    FreeingEffect(c, 0, i);
    CoalesceEffect(Freed(c, i), 0);
  }

  /** A successful request undone at once leaves the chain it started from. */
  lemma MallocThenFree(c: Chain, t: nat, n: nat)
    requires Canonical(c, n) && FirstFit(c, t) < |c|
    ensures Release(Split(c, FirstFit(c, t), t), FirstFit(c, t)) == c
  {
    var i := FirstFit(c, t);
    var d := Split(c, i, t);
    SplitEffect(c, 0, i, t);
    SplitKeeps(c, i, t, n);
    SplitAt(c, i, t);
    ReleaseEffect(d, i, n);
    CanonicalUnique(Release(d, i), c, n);
  }

  lemma {:induction false} SplitAt(c: Chain, i: nat, t: nat)
    requires i < |c| && Fits(c[i], t)
    ensures Offset(Split(c, i, t), i) == Offset(c, i)
  {
    if i > 0 {
      SplitAt(c[1..], i - 1, t);
      assert Split(c, i, t)[1..] == Split(c[1..], i - 1, t);
    }
  }

  // ----- whole runs -----

  datatype Op = Request(t: nat) | Return(handle: nat)

  /** The chain, and the ledger a client keeps of the handles it was given. */
  datatype Heap = Heap(chain: Chain, ledger: map<nat, nat>)

  predicate Legal(s: Heap, op: Op) {
    op.Return? ==> op.handle in s.ledger
  }

  ghost predicate Step(s: Heap, op: Op, s': Heap) {
    match op
    case Request(t) =>
      var (c, h) := Malloc(s.chain, t);
      s' == Heap(c, if h.Some? then s.ledger[h.value := t] else s.ledger)
    case Return(h) =>
      exists i :: 0 <= i < |s.chain| && Offset(s.chain, i) == h
        && s' == Heap(Release(s.chain, i), s.ledger - {h})
  }

  /** A run of legal operations, from the state ma_init leaves. */
  ghost predicate Run(n: nat, ops: seq<Op>, run: seq<Heap>)
    requires HEADER_SIZE <= n
  {
    && |run| == |ops| + 1
    && run[0] == Heap(Init(n), map[])
    && forall k :: 0 <= k < |ops| ==> Legal(run[k], ops[k]) && Step(run[k], ops[k], run[k + 1])
  }

  /** In every reachable state the chain tiles the pool, has no free neighbours,
      and its allocations are exactly the handles the client holds, at the
      offsets and with the sizes it was given. */
  lemma {:induction false} RunInvariant(n: nat, ops: seq<Op>, run: seq<Heap>, k: nat)
    requires HEADER_SIZE <= n && Run(n, ops, run) && k < |run|
    ensures Canonical(run[k].chain, n) && Live(run[k].chain) == run[k].ledger
  {
    if k > 0 {
      RunInvariant(n, ops, run, k - 1);
      StepInvariant(n, run[k - 1], ops[k - 1], run[k]);
    }
  }

  lemma StepInvariant(n: nat, s: Heap, op: Op, s': Heap)
    requires Canonical(s.chain, n) && Live(s.chain) == s.ledger
    requires Legal(s, op) && Step(s, op, s')
    ensures Canonical(s'.chain, n) && Live(s'.chain) == s'.ledger
  {
    match op
    case Request(t) =>
      if FirstFit(s.chain, t) < |s.chain| {
        SplitEffect(s.chain, 0, FirstFit(s.chain, t), t);
        SplitCoalesced(s.chain, FirstFit(s.chain, t), t);
      }
    case Return(h) =>
      var i :| 0 <= i < |s.chain| && Offset(s.chain, i) == h
        && s' == Heap(Release(s.chain, i), s.ledger - {h});
      LiveIsAllocated(s.chain, 0, i);
      ReleaseEffect(s.chain, i, n);
  }

  /** No legal operation is ever refused a next state. */
  lemma StepExists(s: Heap, op: Op) returns (s': Heap)
    requires Live(s.chain) == s.ledger && Legal(s, op)
    ensures Step(s, op, s')
  {
    match op
    case Request(t) =>
      var (c, h) := Malloc(s.chain, t);
      s' := Heap(c, if h.Some? then s.ledger[h.value := t] else s.ledger);
    case Return(h) =>
      var i := LiveIndex(s.chain, 0, h);
      s' := Heap(Release(s.chain, i), s.ledger - {h});
  }

  /** The allocator forgets its history: whatever two clients did, if they hold
      the same handles then the two chains are equal. */
  lemma HistoryIndependence(n: nat, ops1: seq<Op>, run1: seq<Heap>, ops2: seq<Op>, run2: seq<Heap>)
    requires HEADER_SIZE <= n && Run(n, ops1, run1) && Run(n, ops2, run2)
    requires run1[|ops1|].ledger == run2[|ops2|].ledger
    ensures run1[|ops1|].chain == run2[|ops2|].chain
  {
    RunInvariant(n, ops1, run1, |ops1|);
    RunInvariant(n, ops2, run2, |ops2|);
    CanonicalUnique(run1[|ops1|].chain, run2[|ops2|].chain, n);
  }

  /** Returning every handle, in whatever order, restores the initial pool. */
  lemma FreeAllRestoresInit(n: nat, ops: seq<Op>, run: seq<Heap>)
    requires HEADER_SIZE <= n && Run(n, ops, run)
    requires run[|ops|].ledger == map[]
    ensures run[|ops|].chain == Init(n)
  {
    RunInvariant(n, ops, run, |ops|);
    CanonicalUnique(run[|ops|].chain, Init(n), n);
  }

  /** No step between two returns moves or resizes an allocation that stays in
      the ledger: what is live before and after is at the same place. */
  lemma {:induction false} AllocationStays(n: nat, ops: seq<Op>, run: seq<Heap>, h: nat, i: nat, j: nat)
    requires HEADER_SIZE <= n && Run(n, ops, run) && i <= j < |run|
    requires h in run[i].ledger
    requires forall k :: i <= k < j ==> ops[k] != Return(h)
    ensures h in Live(run[j].chain) && Live(run[j].chain)[h] == run[i].ledger[h]
    decreases j
  {
    RunInvariant(n, ops, run, j);
    if i < j {
      AllocationStays(n, ops, run, h, i, j - 1);
      RunInvariant(n, ops, run, j - 1);
      assert Step(run[j - 1], ops[j - 1], run[j]);
      if ops[j - 1].Request? && FirstFit(run[j - 1].chain, ops[j - 1].t) < |run[j - 1].chain| {
        SplitEffect(run[j - 1].chain, 0, FirstFit(run[j - 1].chain, ops[j - 1].t), ops[j - 1].t);
      }
    }
  }
}
