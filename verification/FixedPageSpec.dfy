// The fixed-size page as a value: a grid of equal chunks and a last-in first-out free list.
module FixedPageSpec {
  import opened Sequences
  import opened Words

  const MIN_CHUNK: nat := 8

  // Address of chunk i of the grid that starts at lo.
  function Chunk(lo: nat, chunk: nat, i: nat): nat {
    lo + i * chunk
  }

  lemma ChunksApart(lo: nat, chunk: nat, i: nat, j: nat)
    requires i < j
    ensures Chunk(lo, chunk, i) + chunk <= Chunk(lo, chunk, j)
  {
    assert j * chunk == i * chunk + chunk + (j - i - 1) * chunk;
    assert (j - i - 1) * chunk >= 0;
  }

  // The collections are type parameters so that the verifier does not rank a page above their elements.
  datatype FixedOf<List, Chunks> = Fixed(
    lo: nat,          // first byte of the page's memory
    hi: nat,          // one past its last byte
    chunk: nat,       // m_size_class
    count: nat,       // chunks in the grid
    free: List,       // the free list, top first
    live: Chunks,     // the chunks handed out
    used: int)        // m_used_size

  type Fixed = FixedOf<seq<nat>, set<nat>>

  ghost predicate IsChunk(p: Fixed, a: nat) {
    exists i: nat :: i < p.count && a == Chunk(p.lo, p.chunk, i)
  }

  // Chunk i of the grid is free or live.
  ghost predicate ChunkPlaced(p: Fixed, i: nat) {
    i < p.count ==> Chunk(p.lo, p.chunk, i) in p.free || Chunk(p.lo, p.chunk, i) in p.live
  }

  ghost predicate Partitioned(p: Fixed) {
    && NoDuplicates(p.free)
    && (forall a :: a in p.free ==> a !in p.live && IsChunk(p, a))
    && (forall a :: a in p.live ==> IsChunk(p, a))
    && (forall i: nat :: ChunkPlaced(p, i))
  }

  ghost predicate Inv(p: Fixed) {
    && 0 < p.lo && p.hi <= WORD_LIMIT && MIN_CHUNK <= p.chunk
    && Chunk(p.lo, p.chunk, p.count) <= p.hi
    && Partitioned(p)
    && p.used == |p.live| * p.chunk
  }

  predicate Owns(p: Fixed, ptr: nat) {
    p.lo <= ptr < p.hi
  }

  // Pop the top chunk; the requested size plays no part. Returns 0 when the list is empty.
  function Allocate(p: Fixed): (Fixed, nat) {
    if p.free == [] then (p, 0)
    else (p.(free := p.free[1..], live := p.live + {p.free[0]}, used := p.used + p.chunk), p.free[0])
  }

  // Push the chunk back; a pointer outside the page is ignored.
  function Deallocate(p: Fixed, ptr: nat): Fixed {
    if !Owns(p, ptr) then p
    else p.(free := [ptr] + p.free, live := p.live - {ptr}, used := p.used - p.chunk)
  }

  // The list after pushing chunks 0 .. n-1 in that order.
  function Grown(lo: nat, chunk: nat, n: nat): seq<nat> {
    if n == 0 then [] else [Chunk(lo, chunk, n - 1)] + Grown(lo, chunk, n - 1)
  }

  function Fresh(lo: nat, hi: nat, chunk: nat): Fixed
    requires lo <= hi && chunk > 0
  {
    var count := (hi - lo) / chunk;
    Fixed(lo, hi, chunk, count, Grown(lo, chunk, count), {}, 0)
  }

  // ---- What the page promises ----

  lemma ChunkInside(p: Fixed, a: nat)
    requires Inv(p) && IsChunk(p, a)
    ensures p.lo <= a && a + p.chunk <= p.hi
  {
    var i: nat :| i < p.count && a == Chunk(p.lo, p.chunk, i);
    ChunksApart(p.lo, p.chunk, i, p.count);
    if i > 0 {
      ChunksApart(p.lo, p.chunk, 0, i);
    }
  }

  // Two different chunks never share a byte.
  lemma ChunksDisjoint(p: Fixed, a: nat, b: nat)
    requires IsChunk(p, a) && IsChunk(p, b) && a != b
    ensures a + p.chunk <= b || b + p.chunk <= a
  {
    var i: nat :| i < p.count && a == Chunk(p.lo, p.chunk, i);
    var j: nat :| j < p.count && b == Chunk(p.lo, p.chunk, j);
    if i < j {
      ChunksApart(p.lo, p.chunk, i, j);
    } else if j < i {
      ChunksApart(p.lo, p.chunk, j, i);
    }
  }

  // Every chunk of the grid is either free or live, never both, and nothing else is.
  lemma ChunkPartition(p: Fixed, a: nat)
    requires Inv(p)
    ensures IsChunk(p, a) <==> a in p.free || a in p.live
    ensures !(a in p.free && a in p.live)
  {
    if IsChunk(p, a) {
      var i: nat :| i < p.count && a == Chunk(p.lo, p.chunk, i);
      assert ChunkPlaced(p, i);
    }
  }

  lemma AllocateKeepsInv(p: Fixed)
    requires Inv(p)
    ensures var (q, ptr) := Allocate(p);
      && Inv(q) && q.lo == p.lo && q.hi == p.hi && q.chunk == p.chunk && q.count == p.count
      && (ptr == 0 <==> p.free == []) && (ptr == 0 ==> q == p)
      && (ptr != 0 ==> ptr !in p.live && q.live == p.live + {ptr} && IsChunk(p, ptr)
                       && p.lo <= ptr && ptr + p.chunk <= p.hi)
  {
    if p.free != [] {
      var ptr := p.free[0];
      assert ptr in p.free;
      ChunkInside(p, ptr);
      AllocatePartition(p);
      OneMore(|p.live|, p.chunk);
    }
  }

  lemma OneMore(n: nat, chunk: nat)
    ensures (n + 1) * chunk == n * chunk + chunk
  {
  }

  lemma AllocatePartition(p: Fixed)
    requires Partitioned(p) && p.free != []
    ensures Partitioned(Allocate(p).0)
  {
    var (q, ptr) := Allocate(p);
    TailMembers(p.free);
    forall a | a in q.free ensures a !in q.live && IsChunk(q, a) {
      assert IsChunk(p, a);
    }
    forall a | a in q.live ensures IsChunk(q, a) {
      assert a == ptr || a in p.live;
      assert ptr in p.free && IsChunk(p, a);
    }
    forall i: nat ensures ChunkPlaced(q, i) {
      assert ChunkPlaced(p, i);
    }
  }

  lemma DeallocateKeepsInv(p: Fixed, ptr: nat)
    requires Inv(p) && ptr in p.live
    ensures var q := Deallocate(p, ptr);
      && Inv(q) && q.lo == p.lo && q.hi == p.hi && q.chunk == p.chunk && q.count == p.count
      && q.live == p.live - {ptr} && q.free == [ptr] + p.free
  {
    var q := Deallocate(p, ptr);
    ChunkInside(p, ptr);
    assert ptr !in p.free;
    forall i: nat, j: nat ensures Differ(q.free, i, j) {
      if 0 < i < j < |q.free| {
        assert Differ(p.free, i - 1, j - 1);
      }
    }
    forall a | a in q.free ensures a !in q.live && IsChunk(q, a) {
      assert IsChunk(p, a);
    }
    forall a | a in q.live ensures IsChunk(q, a) {
      assert IsChunk(p, a);
    }
    forall i: nat ensures ChunkPlaced(q, i) {
      assert ChunkPlaced(p, i);
      assert forall a :: a in p.free ==> a in q.free;
    }
    assert (|q.live| + 1) * p.chunk == |q.live| * p.chunk + p.chunk;
  }

  // Freeing what was just handed out restores the page: the list is last-in first-out.
  lemma FreeUndoesAllocate(p: Fixed)
    requires Inv(p) && p.free != []
    ensures var (q, ptr) := Allocate(p); Deallocate(q, ptr) == p
  {
    var (q, ptr) := Allocate(p);
    assert ptr in p.free;
    ChunkInside(p, ptr);
    assert [ptr] + p.free[1..] == p.free;
    assert p.live + {ptr} - {ptr} == p.live;
  }

  lemma UsedZero(p: Fixed)
    requires Inv(p)
    ensures p.used == 0 <==> p.live == {}
  {
    if p.live != {} {
      assert |p.live| * p.chunk >= p.chunk;
    }
  }

  lemma {:induction false} GrownElements(lo: nat, chunk: nat, n: nat)
    ensures |Grown(lo, chunk, n)| == n
    ensures forall i :: 0 <= i < n ==> Grown(lo, chunk, n)[i] == Chunk(lo, chunk, n - 1 - i)
  {
    if n > 0 {
      GrownElements(lo, chunk, n - 1);
    }
  }

  // A fresh page has as many chunks as fit, all of them free and the last one on top.
  lemma FreshChunks(lo: nat, hi: nat, chunk: nat)
    requires 0 < lo <= hi && MIN_CHUNK <= chunk
    ensures var f := Fresh(lo, hi, chunk);
      && f.count == |f.free| && f.count * chunk <= hi - lo < (f.count + 1) * chunk
      && forall i :: 0 <= i < |f.free| ==> f.free[i] == Chunk(lo, chunk, |f.free| - 1 - i)
  {
    GrownElements(lo, chunk, Fresh(lo, hi, chunk).count);
  }

  // Every chunk of a fresh page is free.
  lemma FreshInv(lo: nat, hi: nat, chunk: nat)
    requires 0 < lo <= hi <= WORD_LIMIT && MIN_CHUNK <= chunk
    ensures Inv(Fresh(lo, hi, chunk)) && Fresh(lo, hi, chunk).live == {}
  {
    var p := Fresh(lo, hi, chunk);
    GrownElements(lo, chunk, p.count);
    assert p.count * chunk <= hi - lo;
    forall i: nat, j: nat ensures Differ(p.free, i, j) {
      if i < j < p.count {
        ChunksApart(lo, chunk, p.count - 1 - j, p.count - 1 - i);
      }
    }
    forall a | a in p.free ensures IsChunk(p, a) {
      var i :| 0 <= i < |p.free| && p.free[i] == a;
      assert a == Chunk(lo, chunk, p.count - 1 - i);
    }
    forall i: nat ensures ChunkPlaced(p, i) {
      if i < p.count {
        assert p.free[p.count - 1 - i] == Chunk(lo, chunk, i);
      }
    }
  }
}
