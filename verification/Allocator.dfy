/** The pool allocator: headers rewritten in place at their offsets in one array.
    Every other unit of the array is payload or a stale header: nothing reads it,
    and no operation writes inside an allocation that stays live. */
module Allocator {
  import opened Chunks
  import opened Wrappers

  /** The headers found in the pool from offset `base` on are those of chain c. */
  ghost predicate LaidFrom(pool: seq<Chunk>, base: nat, c: Chain)
    decreases c
  {
    |c| > 0 ==> base < |pool| && pool[base] == c[0] && LaidFrom(pool, base + Span(c[0]), c[1..])
  }

  ghost predicate Laid(pool: seq<Chunk>, c: Chain) {
    Extent(c) == |pool| && LaidFrom(pool, 0, c)
  }

  /** Writes outside a stretch of chunks leave its headers alone. */
  lemma {:induction false} LaidFrame(pool: seq<Chunk>, pool': seq<Chunk>, base: nat, c: Chain)
    requires LaidFrom(pool, base, c) && |pool| == |pool'|
    requires forall x :: base <= x < base + Extent(c) && x < |pool| ==> pool'[x] == pool[x]
    ensures LaidFrom(pool', base, c)
    decreases c
  {
    if c != [] {
      LaidFrame(pool, pool', base + Span(c[0]), c[1..]);
    }
  }

  lemma {:induction false} HeaderAt(pool: seq<Chunk>, base: nat, c: Chain, i: nat)
    requires LaidFrom(pool, base, c) && i < |c|
    ensures base + Offset(c, i) < |pool| && pool[base + Offset(c, i)] == c[i]
    decreases i
  {
    if i > 0 {
      HeaderAt(pool, base + Span(c[0]), c[1..], i - 1);
    }
  }

  lemma {:induction false} SplitLaid(pool: seq<Chunk>, base: nat, c: Chain, i: nat, t: nat)
    requires LaidFrom(pool, base, c) && base + Extent(c) <= |pool|
    requires i < |c| && Fits(c[i], t)
    ensures base + Offset(c, i) + HEADER_SIZE + t < |pool|
    ensures LaidFrom(pool[base + Offset(c, i) + HEADER_SIZE + t := Chunk(c[i].size - HEADER_SIZE - t, Free)]
                         [base + Offset(c, i) := Chunk(t, Allocated)],
                     base, Split(c, i, t))
    decreases i
  {
    var next, d := base + Span(c[0]), Split(c, i, t);
    OffsetsApart(c, i, i + 1);
    LastChunk(c, i + 1);
    var pool' := pool[base + Offset(c, i) + HEADER_SIZE + t := Chunk(c[i].size - HEADER_SIZE - t, Free)]
                     [base + Offset(c, i) := Chunk(t, Allocated)];
    if i > 0 {
      SplitLaid(pool, next, c[1..], i - 1, t);
      assert d[1..] == Split(c[1..], i - 1, t);
    } else {
      LaidFrame(pool, pool', next, c[1..]);
      assert d[1..][1..] == c[1..];
      assert LaidFrom(pool', base + Span(d[0]), d[1..]);
    }
  }

  lemma {:induction false} FreedLaid(pool: seq<Chunk>, base: nat, c: Chain, i: nat)
    requires LaidFrom(pool, base, c) && i < |c|
    ensures base + Offset(c, i) < |pool|
    ensures LaidFrom(pool[base + Offset(c, i) := Chunk(c[i].size, Free)], base, Freed(c, i))
    decreases i
  {
    HeaderAt(pool, base, c, i);
    if i > 0 {
      FreedLaid(pool, base + Span(c[0]), c[1..], i - 1);
      assert Freed(c, i)[1..] == Freed(c[1..], i - 1);
    } else {
      LaidFrame(pool, pool[base := Chunk(c[0].size, Free)], base + Span(c[0]), c[1..]);
    }
  }

  /** Chunks i and i + 1 become one free chunk. */
  function Merged(c: Chain, i: nat): Chain
    requires i + 1 < |c|
  {
    if i > 0 then [c[0]] + Merged(c[1..], i - 1)
    else [Chunk(c[0].size + Span(c[1]), Free)] + c[2..]
  }

  lemma {:induction false} MergeLaid(pool: seq<Chunk>, base: nat, c: Chain, i: nat)
    requires LaidFrom(pool, base, c) && i + 1 < |c|
    ensures base + Offset(c, i) < |pool|
    ensures LaidFrom(pool[base + Offset(c, i) := Chunk(c[i].size + Span(c[i + 1]), Free)], base, Merged(c, i))
    ensures |Merged(c, i)| == |c| - 1 && Merged(c, i)[i] == Chunk(c[i].size + Span(c[i + 1]), Free)
    ensures Offset(Merged(c, i), i) == Offset(c, i) && Extent(Merged(c, i)) == Extent(c)
    decreases i
  {
    HeaderAt(pool, base, c, i);
    var d := Merged(c, i);
    if i > 0 {
      MergeLaid(pool, base + Span(c[0]), c[1..], i - 1);
      assert d[1..] == Merged(c[1..], i - 1);
    } else {
      assert d[1..] == c[1..][1..];
      assert LaidFrom(pool, base + Span(c[0]), c[1..]);
      LaidFrame(pool, pool[base := d[0]], base + Span(d[0]), d[1..]);
    }
  }

  /** Coalesces what follows the first i chunks. */
  function CoalesceAfter(c: Chain, i: nat): Chain
    requires i <= |c|
  {
    if i == 0 then Coalesce(c) else [c[0]] + CoalesceAfter(c[1..], i - 1)
  }

  lemma {:induction false} MergeStep(c: Chain, i: nat)
    requires i + 1 < |c| && c[i].status.Free? && c[i + 1].status.Free?
    ensures i <= |Merged(c, i)| && CoalesceAfter(Merged(c, i), i) == CoalesceAfter(c, i)
  {
    if i > 0 {
      MergeStep(c[1..], i - 1);
      assert Merged(c, i)[1..] == Merged(c[1..], i - 1);
    }
  }

  lemma {:induction false} AdvanceStep(c: Chain, i: nat)
    requires i < |c| && (i + 1 < |c| ==> !(c[i].status.Free? && c[i + 1].status.Free?))
    ensures CoalesceAfter(c, i + 1) == CoalesceAfter(c, i)
    ensures i + 1 == |c| ==> CoalesceAfter(c, i) == c
  {
    if i > 0 {
      AdvanceStep(c[1..], i - 1);
    }
  }

  // ----- what lies outside the writes -----

  /** The units of the allocations in `live`, headers included, are the same. */
  ghost predicate Untouched(live: map<nat, nat>, pool: seq<Chunk>, pool': seq<Chunk>) {
    && |pool| == |pool'|
    && forall g, x :: g in live && g <= x < g + HEADER_SIZE + live[g] && x < |pool| ==> pool'[x] == pool[x]
  }

  /** A chunk that is not live has no unit in common with the live ones. */
  lemma OutsideLive(c: Chain, i: nat, g: nat, x: nat)
    requires i < |c| && Offset(c, i) !in Live(c) && g in Live(c)
    requires Offset(c, i) <= x < Offset(c, i) + Span(c[i])
    ensures !(g <= x < g + HEADER_SIZE + Live(c)[g])
  {
    var j := LiveIndex(c, 0, g);
    if i < j {
      OffsetsApart(c, i, j);
    } else if j < i {
      OffsetsApart(c, j, i);
    }
  }

  /** So a unit written in such a chunk is in no live allocation. */
  lemma WriteOutside(c: Chain, i: nat, x: nat, pool: seq<Chunk>, k: Chunk)
    requires i < |c| && Offset(c, i) !in Live(c)
    requires Offset(c, i) <= x < Offset(c, i) + Span(c[i]) && x < |pool|
    ensures Untouched(Live(c), pool, pool[x := k])
  {
    forall g | g in Live(c) ensures !(g <= x < g + HEADER_SIZE + Live(c)[g]) {
      OutsideLive(c, i, g, x);
    }
  }

  lemma UntouchedTrans(live: map<nat, nat>, p: seq<Chunk>, q: seq<Chunk>, r: seq<Chunk>)
    requires Untouched(live, p, q) && Untouched(live, q, r)
    ensures Untouched(live, p, r)
  {
    forall g, x | g in live && g <= x < g + HEADER_SIZE + live[g] && x < |p| ensures r[x] == p[x] {
      assert q[x] == p[x];
    }
  }

  /** Merging free neighbours changes no allocation. */
  lemma {:induction false} MergedLive(c: Chain, base: nat, i: nat)
    requires i + 1 < |c| && c[i].status.Free? && c[i + 1].status.Free?
    ensures LiveFrom(Merged(c, i), base) == LiveFrom(c, base)
  {
    var d := Merged(c, i);
    if i > 0 {
      MergedLive(c[1..], base + Span(c[0]), i - 1);
      assert d[1..] == Merged(c[1..], i - 1);
    } else {
      assert d[1..] == c[1..][1..];
    }
  }

  /** What ma_print shows of a chain: H for a header unit, '.' or A for the rest. */
  function Render(c: Chain): (s: string)
    ensures |s| == Extent(c)
  {
    if |c| == 0 then [] else Marks(c[0]) + Render(c[1..])
  }

  function Marks(k: Chunk): (s: string)
    ensures |s| == Span(k)
  {
    seq(Span(k), i => if i < HEADER_SIZE then 'H' else if k.status.Free? then '.' else 'A')
  }

  /** The chunk that covers unit x. */
  lemma {:induction false} ChunkAt(c: Chain, x: nat) returns (i: nat)
    requires x < Extent(c)
    ensures i < |c| && Offset(c, i) <= x < Offset(c, i) + Span(c[i])
    ensures Render(c)[x] == Marks(c[i])[x - Offset(c, i)]
  {
    if x < Span(c[0]) {
      i := 0;
    } else {
      var k := ChunkAt(c[1..], x - Span(c[0]));
      i := k + 1;
    }
  }

  /** The dump shows H exactly at the units of headers, A exactly at the payload of
      live allocations, and a dot at all others. */
  lemma ShowsWhatIsThere(c: Chain, x: nat)
    requires x < Extent(c)
    ensures Render(c)[x] == 'H' <==> exists i :: 0 <= i < |c| && Offset(c, i) <= x < Offset(c, i) + HEADER_SIZE
    ensures Render(c)[x] == 'A' <==> exists g :: g in Live(c) && g + HEADER_SIZE <= x < g + HEADER_SIZE + Live(c)[g]
    ensures Render(c)[x] in "HA."
  {
    var i := ChunkAt(c, x);
    LiveIsAllocated(c, 0, i);
    forall j | 0 <= j < |c| && Offset(c, j) <= x < Offset(c, j) + Span(c[j]) ensures j == i {
      if i < j { OffsetsApart(c, i, j); } else if j < i { OffsetsApart(c, j, i); }
    }
    if g :| g in Live(c) && g + HEADER_SIZE <= x < g + HEADER_SIZE + Live(c)[g] {
      var j := LiveIndex(c, 0, g);
      assert j == i;
    }
  }

  lemma {:induction false} RenderJoin(c: Chain, d: Chain, e: Chain)
    requires e == c + d
    ensures Render(e) == Render(c) + Render(d)
  {
    if c == [] {
      assert e == d;
    } else {
      RenderJoin(c[1..], d, e[1..]);
    }
  }

  /** Both headers of a split are written inside the chunk that is split. */
  lemma SplitWrites(c: Chain, i: nat, t: nat, pool: seq<Chunk>, rest: Chunk, head: Chunk)
    requires i < |c| && Fits(c[i], t) && Extent(c) == |pool|
    ensures Offset(c, i) + HEADER_SIZE + t < |pool|
    ensures Untouched(Live(c), pool, pool[Offset(c, i) + HEADER_SIZE + t := rest][Offset(c, i) := head])
  {
    OffsetsApart(c, i, i + 1);
    SplitEffect(c, 0, i, t);
    var q := pool[Offset(c, i) + HEADER_SIZE + t := rest];
    WriteOutside(c, i, Offset(c, i) + HEADER_SIZE + t, pool, rest);
    WriteOutside(c, i, Offset(c, i), q, head);
    UntouchedTrans(Live(c), pool, q, q[Offset(c, i) := head]);
  }

  class Pool {
    const pool: array<Chunk>
    ghost var chunks: Chain

    ghost predicate Valid()
      reads this, pool
    {
      HEADER_SIZE <= pool.Length && Laid(pool[..], chunks) && Canonical(chunks, pool.Length)
    }

    /** The static array before ma_init has run: all zero bytes. */
    constructor (n: nat)
      ensures pool.Length == n && fresh(pool)
    {
      pool := new Chunk[n](i => Chunk(0, Allocated));
    }

    method Init()
      requires HEADER_SIZE <= pool.Length
      modifies this, pool
      ensures Valid() && chunks == Chunks.Init(pool.Length)
    {
      pool[0] := Chunk(pool.Length - HEADER_SIZE, Status.Free);
      chunks := Chunks.Init(pool.Length);
    }

    method Malloc(tsize: nat) returns (handle: Option<nat>)
      requires Valid()
      modifies this, pool
      ensures Valid()
      ensures (chunks, handle) == Chunks.Malloc(old(chunks), tsize)
      ensures Untouched(Live(old(chunks)), old(pool[..]), pool[..])
      ensures handle == None <==>
                forall k :: k in old(chunks) && k.status.Free? ==> Span(k) < 2 * HEADER_SIZE + tsize
      ensures handle.Some? ==>
                && handle.value !in Live(old(chunks)) && Live(chunks) == Live(old(chunks))[handle.value := tsize]
                && forall i :: 0 <= i < |old(chunks)| && old(chunks)[i].status.Free?
                               && Span(old(chunks)[i]) >= 2 * HEADER_SIZE + tsize ==>
                     handle.value <= Offset(old(chunks), i)
    {
      MallocMeets(chunks, tsize);
      var currentMem, memPtr := 0, 0;
      ghost var i := 0;
      while true
        invariant Valid() && chunks == old(chunks) && pool[..] == old(pool[..])
        invariant i < |chunks| && memPtr == currentMem == Offset(chunks, i)
        invariant forall j :: 0 <= j < i ==> !Fits(chunks[j], tsize)
        decreases pool.Length - currentMem
      {
        HeaderAt(pool[..], 0, chunks, i);
        OffsetNext(chunks, i);
        OffsetsApart(chunks, i, i + 1);
        if pool[memPtr].status.Free? && pool[memPtr].size >= HEADER_SIZE + tsize {
          FirstFitIs(chunks, tsize, i);
          SplitAt(memPtr, tsize, i);
          return Some(memPtr);
        }
        currentMem := currentMem + HEADER_SIZE + pool[memPtr].size;
        i := i + 1;
        LastChunk(chunks, i);
        if currentMem >= pool.Length { break; }
        memPtr := memPtr + HEADER_SIZE + pool[memPtr].size;
      }
      return None;
    }

    /** Writes the header of the remainder, then that of the allocation. */
    method SplitAt(memPtr: nat, tsize: nat, ghost i: nat)
      requires Valid() && i < |chunks| && memPtr == Offset(chunks, i) && Fits(chunks[i], tsize)
      modifies this, pool
      ensures Valid() && chunks == Split(old(chunks), i, tsize)
      ensures Untouched(Live(old(chunks)), old(pool[..]), pool[..])
    {
      HeaderAt(pool[..], 0, chunks, i);
      SplitLaid(pool[..], 0, chunks, i, tsize);
      SplitEffect(chunks, 0, i, tsize);
      SplitKeeps(chunks, i, tsize, pool.Length);
      ghost var was := pool[..];
      var newMemPtr := memPtr + HEADER_SIZE + tsize;
      pool[newMemPtr] := Chunk(pool[memPtr].size - HEADER_SIZE - tsize, Status.Free);
      pool[memPtr] := Chunk(tsize, Allocated);
      SplitWrites(chunks, i, tsize, was, pool[newMemPtr], pool[memPtr]);
      chunks := Split(chunks, i, tsize);
      assert pool[..] == was[newMemPtr := pool[newMemPtr]][memPtr := pool[memPtr]];
    }

    method Free(handle: nat)
      requires Valid() && handle in Live(chunks)
      modifies this, pool
      ensures Valid()
      ensures Live(chunks) == Live(old(chunks)) - {handle}
      ensures exists i :: 0 <= i < |old(chunks)| && Offset(old(chunks), i) == handle
                && chunks == Release(old(chunks), i)
      ensures Untouched(Live(chunks), old(pool[..]), pool[..])
    {
      ghost var i := LiveIndex(chunks, 0, handle);
      HeaderAt(pool[..], 0, chunks, i);
      ReleaseEffect(chunks, i, pool.Length);
      FreedLaid(pool[..], 0, chunks, i);
      FreeingEffect(chunks, 0, i);
      ghost var was := pool[..];
      pool[handle] := Chunk(pool[handle].size, Status.Free);
      chunks := Freed(chunks, i);
      assert pool[..] == was[handle := pool[handle]];
      FreedOffset(old(chunks), i);
      WriteOutside(chunks, i, handle, was, pool[handle]);
      ghost var marked := pool[..];
      Coaless();
      UntouchedTrans(Live(chunks), was, marked, pool[..]);
    }

    /** Merges every run of free neighbours, wherever it lies in the pool. */
    method Coaless()
      requires HEADER_SIZE <= pool.Length && Laid(pool[..], chunks)
      modifies this, pool
      ensures Valid()
      ensures chunks == Coalesce(old(chunks)) && Live(chunks) == Live(old(chunks))
      ensures Untouched(Live(chunks), old(pool[..]), pool[..])
    {
      var currentMem, currentPtr := 0, 0;
      ghost var i := 0;
      ghost var start, was := chunks, pool[..];
      CoalesceEffect(chunks, 0);
      NonEmpty(chunks);
      HeaderAt(pool[..], 0, chunks, 0);
      while currentMem + HEADER_SIZE + pool[currentPtr].size < pool.Length
        invariant Laid(pool[..], chunks)
        invariant i < |chunks| && currentPtr == currentMem == Offset(chunks, i) < pool.Length
        invariant pool[currentPtr] == chunks[i]
        invariant CoalesceAfter(chunks, i) == Coalesce(start)
        invariant Live(chunks) == Live(start) && Untouched(Live(start), was, pool[..])
        decreases |chunks| - i
      {
        OffsetNext(chunks, i);
        LastChunk(chunks, i + 1);
        var nextPtr := currentPtr + HEADER_SIZE + pool[currentPtr].size;
        HeaderAt(pool[..], 0, chunks, i + 1);
        if pool[currentPtr].status.Free? && pool[nextPtr].status.Free? {
          MergeStep(chunks, i);
          ghost var before := pool[..];
          MergeAt(currentPtr, nextPtr, i);
          UntouchedTrans(Live(start), was, before, pool[..]);
        } else {
          AdvanceStep(chunks, i);
          currentMem := currentMem + HEADER_SIZE + pool[currentPtr].size;
          currentPtr := nextPtr;
          i := i + 1;
        }
      }
      OffsetNext(chunks, i);
      LastChunk(chunks, i + 1);
      AdvanceStep(chunks, i);
    }

    method MergeAt(currentPtr: nat, nextPtr: nat, ghost i: nat)
      requires Laid(pool[..], chunks) && i + 1 < |chunks|
      requires currentPtr == Offset(chunks, i) && nextPtr == Offset(chunks, i + 1)
      requires chunks[i].status.Free? && chunks[i + 1].status.Free?
      modifies this, pool
      ensures Laid(pool[..], chunks) && chunks == Merged(old(chunks), i)
      ensures i < |chunks| && currentPtr == Offset(chunks, i) < pool.Length && pool[currentPtr] == chunks[i]
      ensures |chunks| == |old(chunks)| - 1
      ensures Live(chunks) == Live(old(chunks)) && Untouched(Live(chunks), old(pool[..]), pool[..])
    {
      HeaderAt(pool[..], 0, chunks, i);
      HeaderAt(pool[..], 0, chunks, i + 1);
      MergeLaid(pool[..], 0, chunks, i);
      ghost var was := pool[..];
      pool[currentPtr] := Chunk(pool[currentPtr].size + HEADER_SIZE + pool[nextPtr].size, Status.Free);
      LiveIsAllocated(chunks, 0, i);
      WriteOutside(chunks, i, currentPtr, was, pool[currentPtr]);
      MergedLive(chunks, 0, i);
      chunks := Merged(chunks, i);
      assert pool[..] == was[currentPtr := pool[currentPtr]];
    }

    /** The dump ends because its equality test is met by the tiling, and shows
        exactly one mark for each unit of the pool. */
    method Print() returns (marks: string)
      requires Valid()
      ensures marks == Render(chunks) && |marks| == pool.Length
    {
      var currentMem, memPtr := 0, 0;
      ghost var i := 0;
      marks := [];
      NonEmpty(chunks);
      HeaderAt(pool[..], 0, chunks, 0);
      var chunkSize := pool[memPtr].size + HEADER_SIZE;
      while true
        invariant i < |chunks| && memPtr == currentMem == Offset(chunks, i) < pool.Length
        invariant pool[memPtr] == chunks[i] && chunkSize == Span(chunks[i])
        invariant marks == Render(chunks[..i])
        decreases pool.Length - currentMem
      {
        OffsetNext(chunks, i);
        OffsetsApart(chunks, i, i + 1);
        RenderJoin(chunks[..i], [chunks[i]], chunks[..i + 1]);
        assert Render([chunks[i]]) == Marks(chunks[i]) by { assert [chunks[i]][1..] == []; }
        marks := PrintChunk(pool[memPtr], marks);
        currentMem := currentMem + chunkSize;
        i := i + 1;
        LastChunk(chunks, i);
        if currentMem == pool.Length { break; }
        memPtr := memPtr + chunkSize;
        HeaderAt(pool[..], 0, chunks, i);
        chunkSize := pool[memPtr].size + HEADER_SIZE;
      }
      assert chunks[..i] == chunks;
    }
  }

  method PrintChunk(chunk: Chunk, before: string) returns (marks: string)
    ensures marks == before + Marks(chunk)
  {
    marks := before;
    if chunk.status.Free? {
      for i := 0 to chunk.size + HEADER_SIZE
        invariant marks == before + Marks(chunk)[..i]
      {
        if i < HEADER_SIZE { marks := marks + "H"; } else { marks := marks + "."; }
      }
    } else {
      for i := 0 to chunk.size + HEADER_SIZE
        invariant marks == before + Marks(chunk)[..i]
      {
        if i < HEADER_SIZE { marks := marks + "H"; } else { marks := marks + "A"; }
      }
    }
  }

  lemma FreedOffset(c: Chain, i: nat)
    requires i < |c|
    ensures Offset(Freed(c, i), i) == Offset(c, i) && Offset(c, i) !in Live(Freed(c, i))
  {
    SameOffset(c, i);
    LiveIsAllocated(Freed(c, i), 0, i);
  }

  lemma {:induction false} SameOffset(c: Chain, i: nat)
    requires i < |c|
    ensures Offset(Freed(c, i), i) == Offset(c, i)
  {
    if i > 0 {
      SameOffset(c[1..], i - 1);
      assert Freed(c, i)[1..] == Freed(c[1..], i - 1);
    }
  }

  lemma NonEmpty(c: Chain)
    requires Extent(c) > 0
    ensures c != [] && Offset(c, 0) == 0
  {
  }

  /** What the contract of a request says of its result, in terms of the room there is. */
  lemma MallocMeets(c: Chain, t: nat)
    ensures Chunks.Malloc(c, t).1 == None <==> forall k :: k in c && k.status.Free? ==> Span(k) < 2 * HEADER_SIZE + t
    ensures var (c', h) := Chunks.Malloc(c, t);
      h.Some? ==>
        && h.value !in Live(c) && Live(c') == Live(c)[h.value := t]
        && forall i :: 0 <= i < |c| && c[i].status.Free? && Span(c[i]) >= 2 * HEADER_SIZE + t ==>
             h.value <= Offset(c, i)
  {
    var (c', h) := Chunks.Malloc(c, t);
    MallocFailsIffNoFit(c, t);
    if h.Some? {
      var _ := MallocServesLowestFit(c, t, h.value, 0);
      forall i | 0 <= i < |c| && c[i].status.Free? && Span(c[i]) >= 2 * HEADER_SIZE + t
        ensures h.value <= Offset(c, i)
      {
        var _ := MallocServesLowestFit(c, t, h.value, i);
      }
    }
  }

  lemma FirstFitIs(c: Chain, t: nat, i: nat)
    requires i <= |c| && forall j :: 0 <= j < i ==> !Fits(c[j], t)
    requires i < |c| ==> Fits(c[i], t)
    ensures FirstFit(c, t) == i
  {
  }
}
