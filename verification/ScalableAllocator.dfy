// The allocator on top: one central heap, and one thread-local heap per thread as long as slots last.
module ScalableAllocatorModel {
  import opened Arith
  import opened Bits
  import opened Pow2Log2
  import opened ArenaModel
  import opened SegmentModel
  import opened HeapSpec
  import opened SimpleHeap
  import R = Routing

  // All objects a heap is made of.
  ghost function Foot(h: Heap): set<object> {
    {h, h.big} + set b | b in h.bins
  }

  ghost function ViewOf(h: Heap): R.View
    reads h
  {
    R.HeapView(h.bufferAddress, h.bufferLength, h.parts)
  }

  // A heap that could not be created: it has its buffer, if any, but no pages and nothing to hold.
  ghost function DeadView(h: Heap): R.View
    reads h
  {
    R.View(h.bufferAddress, h.bufferLength, {}, {}, iset{})
  }

  ghost predicate Bounded(h: Heap)
    reads h
  {
    h.concurrency == ThreadLocal ==> HeapBytes(h.parts) <= Range(h.bufferAddress, h.bufferLength)
  }

  lemma SoundView(h: Heap)
    requires h.Own()
    ensures HeapHeld(h.parts) <= HeapBytes(h.parts) && Bounded(h) && R.RoomOk(ViewOf(h))
  {
    R.HeapViewOk(h.Plan(), h.bufferAddress, h.bufferLength, h.parts);
    forall x | x in HeapBytes(h.parts)
      ensures h.concurrency == ThreadLocal ==> x in Range(h.bufferAddress, h.bufferLength)
    {
      BoundedHeap(h.Plan(), h.parts, x);
    }
  }

  lemma RoomsKept(v: R.View, v': R.View, ps: seq<Part>, t: seq<Part>, freed: set<nat>)
    requires Keeps(ps, t, freed)
    requires forall p: nat, n: nat :: R.InRoom(v, p, n) <==> Reserved(ps, p, n)
    requires forall p: nat, n: nat :: R.InRoom(v', p, n) <==> Reserved(t, p, n)
    ensures R.ViewKeeps(v, v', freed)
  {
  }

  // All heaps seen together: heap k is the one at hand.
  ghost predicate Among(vs: seq<R.View>, k: nat, active: nat, h: Heap)
    reads h, h.arena, h.arena.system
  {
    && R.Inv(vs, h.arena.owned, h.arena.history, h.arena.system.reuse) && R.Idle(vs, active)
    && k <= active && k < |vs| && vs[k] == ViewOf(h) && (k > 0 <==> h.concurrency == ThreadLocal)
  }

  // One heap's part in an allocation.
  method AskHeap(h: Heap, size: nat, ghost vs: seq<R.View>, ghost k: nat, ghost active: nat) returns (ptr: nat)
    requires h.Own() && h.arena.Valid() && h.arena.Aligned() && h.arena.Paged() && h.arena.alignment == h.smallPageSize
    requires h.Maskable() && Among(vs, k, active, h)
    modifies h`parts, h.bins, h.big, h.arena, h.arena.system
    ensures h.Own() && h.Backed() && Among(vs[k := ViewOf(h)], k, active, h)
    ensures ptr != 0 ==> R.RoomIn(vs[k := ViewOf(h)], ptr, size) && R.HolderAt(vs[k := ViewOf(h)], k, ptr)
    ensures Gave(R.AllHeld(vs), R.AllHeld(vs[k := ViewOf(h)]), ptr) && R.Keeps(vs, vs[k := ViewOf(h)], {})
    ensures h.concurrency == ThreadLocal ==> ptr == old(BoundedAnswer(h.Plan(), h.parts, size))
    ensures h.arena.system.refusals >= old(h.arena.system.refusals)
    ensures h.concurrency != ThreadLocal && !h.arena.system.Refused() ==>
      (ptr != 0 <==> HeapServes(h.bigPageSize, size))
  {
    ghost var ps, owned, history, at := h.parts, h.arena.owned, h.arena.history, 0;
    assert R.ViewOk(vs, owned, history, k);
    ptr, at := h.Allocate(size);
    SoundView(h);
    RoomsKept(vs[k], ViewOf(h), ps, h.parts, {});
    R.Served(vs, k, ViewOf(h), owned, h.arena.owned, history, h.arena.history, h.arena.system.reuse, active, ptr);
    assert ptr != 0 ==> R.RoomAt(vs[k := ViewOf(h)], k, ptr, size);
  }

  // One heap's part in a deallocation.
  method TellHeap(h: Heap, ptr: nat, ghost vs: seq<R.View>, ghost k: nat, ghost active: nat)
      returns (ghost dropped: bool)
    requires h.Own() && h.arena.Valid() && h.arena.Aligned() && h.arena.Paged() && h.arena.alignment == h.smallPageSize
    requires h.Maskable() && Among(vs, k, active, h) && R.HolderAt(vs, k, ptr)
    modifies h`parts, h.bins, h.big, h.arena`owned, h.arena.system`mapped
    ensures h.Own() && h.Backed() && Among(vs[k := ViewOf(h)], k, active, h) && R.Keeps(vs, vs[k := ViewOf(h)], {ptr})
    ensures dropped == old(Misrouted(h.Plan(), h.parts, ptr))
    ensures R.AllHeld(vs[k := ViewOf(h)]) == if dropped then R.AllHeld(vs) else R.AllHeld(vs) - {ptr}
  {
    dropped := Misrouted(h.Plan(), h.parts, ptr);
    ghost var ps, owned, history := h.parts, h.arena.owned, h.arena.history;
    assert R.ViewOk(vs, owned, history, k);
    h.Deallocate(ptr);
    SoundView(h);
    RoomsKept(vs[k], ViewOf(h), ps, h.parts, {ptr});
    R.TakenBack(vs, k, ViewOf(h), owned, h.arena.owned, history, history, h.arena.system.reuse, active, ptr);
  }

  // Build a thread-local heap; its buffer is all it gets.
  method BuildLocalHeap(arena: Arena, p: HeapParams) returns (h: Heap, ok: bool)
    requires arena.Valid() && arena.Aligned() && arena.Paged() && |p.counts| == BIN_COUNT
    modifies arena, arena.system
    ensures fresh(Foot(h)) && h.arena == arena && h.concurrency == ThreadLocal
    ensures ok <==> Heap.Accepted(p, old(arena.alignment)) && h.bufferAddress != 0 && Heap.Buildable(p, ThreadLocal)
    ensures ok ==> h.Own() && h.Backed() && HeapHeld(h.parts) == {} && h.bigThreshold == p.bigThreshold
    ensures ok ==> h.AsCreated(p)
    ensures ok ==> ViewOf(h).bytes == Range(h.bufferAddress, h.bufferLength)
    ensures ok ==> arena.owned - ViewOf(h).bytes == old(arena.owned)
    ensures arena.Valid() && arena.Aligned() && arena.Paged() && arena.alignment == old(arena.alignment)
    ensures h.NewBuffer(old(arena.owned), old(arena.history))
    ensures h.bufferAddress == 0 ==>
      (if Heap.Accepted(p, old(arena.alignment)) then arena.system.Refused() else h.bufferLength == 0)
    ensures arena.system.refusals >= old(arena.system.refusals)
  {
    h := new Heap(arena, ThreadLocal);
    assert fresh(set b | b in h.bins);
    ok := h.Create(p);
  }

  class ScalableAllocator {
    const arena: Arena
    const central: Heap
    const heapSize: nat              // sizeof(LocalHeapType)

    var heaps: seq<Heap>             // the local heaps built in the metadata buffer, by slot
    var active: nat                  // m_active_local_heap_count
    var limit: nat                   // m_max_thread_local_heap_count
    var cached: nat                  // m_cached_thread_local_heap_count
    var localParams: HeapParams      // m_local_heap_creation_params
    var threads: map<nat, nat>       // thread-local storage: the thread's heap, counted from 1

    ghost var views: seq<R.View>
    ghost var dead: set<nat>         // local heaps that could not be created
    ghost var Repr: set<object>

    // The central heap and then the local heaps.
    function Member(i: nat): Heap
      requires i <= |heaps|
      reads this`heaps
    {
      if i == 0 then central else heaps[i - 1]
    }

    ghost predicate Seated(i: nat)
      requires i <= |heaps|
      reads this`heaps, this`views, this`dead, this`localParams, this`active, this`Repr, Repr, arena`alignment
    {
      var h := Member(i);
      && Foot(h) <= Repr && h.arena == arena && h.concurrency == (if i == 0 then Central else ThreadLocal)
      && i < |views| && (if i in dead then views[i] == DeadView(h) else views[i] == ViewOf(h) && Alive(h, i))
    }

    ghost predicate Alive(h: Heap, i: nat)
      reads this`localParams, this`active, h, h.bins, h.big, arena`alignment
    {
      && h.Own() && h.smallPageSize == arena.alignment && (i > 0 ==> h.bigThreshold == localParams.bigThreshold)
      && (i > active ==> Unasked(h))
    }

    // A local heap that no thread uses yet is as creation left it.
    ghost predicate Unasked(h: Heap)
      reads this`localParams, h
    {
      h.AsCreated(localParams) && Heap.Buildable(localParams, ThreadLocal)
    }

    ghost predicate FeetApart(i: nat, j: nat)
      reads this`heaps
    {
      i < j <= |heaps| ==> Foot(Member(i)) !! Foot(Member(j))
    }

    // No two threads share a heap, every thread's heap is an active one, and cached heaps could be created.
    ghost predicate SlotsOk()
      reads this
    {
      && active <= |heaps| <= limit && (active > 0 ==> active < limit)
      && |heaps| == (if active < cached then cached else active)
      && (forall t :: t in threads ==> 1 <= threads[t] <= active)
      && (forall i :: i in dead ==> i > cached)
      && (forall t, u :: t in threads && u in threads && t != u ==> threads[t] != threads[u])
    }

    ghost predicate Members()
      reads this, Repr, arena`alignment
    {
      && |views| == |heaps| + 1 && 0 !in dead
      && (forall i :: 0 <= i <= |heaps| ==> Seated(i))
      && (forall i: nat, j: nat :: FeetApart(i, j))
      && (forall t :: t in threads ==> threads[t] <= |heaps| && threads[t] !in dead)
      && (forall i :: i in dead ==> i <= |heaps|)
    }

    ghost predicate Memory()
      reads this, arena, arena.system
    {
      && arena.Valid() && arena.Aligned() && arena.Paged()
      && R.Inv(views, arena.owned, arena.history, arena.system.reuse) && R.Idle(views, active)
    }

    ghost predicate Ready()
      reads this, Repr, arena, arena.system
    {
      && this !in Repr && arena !in Repr && arena.system !in Repr
      && Members() && Memory() && |localParams.counts| == BIN_COUNT
    }

    // The page size is the arena's alignment; that it is a power of two is not checked anywhere.
    ghost predicate Valid()
      reads this, Repr, arena, arena.system
    {
      Ready() && SlotsOk() && IsPow2(arena.alignment)
    }

    // As the constructor leaves it.
    ghost predicate New()
      reads this, Foot(central), arena, arena.system
    {
      && central.arena == arena && central.concurrency == Central && central.Empty()
      && this !in Foot(central) && arena !in Foot(central) && arena.system !in Foot(central)
      && arena.Valid() && arena.alignment == VM_PAGE && arena.cacheSize == arena.cacheBuffer == arena.cacheUsed == 0
      && heaps == [] && dead == {} && active == 0 && threads == map[]
    }

    constructor (system: System, heapSize: nat)
      requires system.mapped <= system.seen
      ensures New() && this.heapSize == heapSize && arena.system == system && cached == 0
    {
      this.heapSize := heapSize;
      var a := new Arena(system);
      arena := a;
      central := new Heap(a, Central);
      heaps, active, limit, cached, threads := [], 0, 0, 0, map[];
      localParams := HeapParams(0, [], 0, 0, 0, 0.0, 0, true);
      views, dead, Repr := [], {}, {};
    }

    // A heap none of whose objects changed keeps its seat.
    twostate lemma KeepsSeat(i: nat)
      requires old(heaps) <= heaps && i <= |old(heaps)| && old(allocated(Foot(Member(i)))) && old(Seated(i))
      requires unchanged(Foot(Member(i))) && arena.alignment == old(arena.alignment) && localParams == old(localParams)
      requires active >= old(active)
      requires old(Repr) <= Repr && i < |views| && views[i] == old(views)[i] && (i in dead <==> i in old(dead))
      ensures Seated(i)
    {
    }

    // create_local_heap: put one more heap into the metadata buffer. One that cannot be created stays there
    // without pages.
    method CreateLocalHeap() returns (ok: bool)
      requires Ready()
      modifies this`heaps, this`views, this`dead, this`Repr, arena, arena.system
      ensures Ready() && |heaps| == |old(heaps)| + 1 && arena.alignment == old(arena.alignment)
      ensures R.AllHeld(views) == old(R.AllHeld(views)) && R.Keeps(old(views), views, {})
      ensures dead == if ok then old(dead) else old(dead) + {|heaps|}
      ensures !arena.system.Refused() ==> (ok <==> LocalHeapsPossible(old(arena.alignment)))
      ensures arena.system.refusals >= old(arena.system.refusals)
      ensures fresh(Repr - old(Repr))
    {
      ghost var vs, owned, history := views, arena.owned, arena.history;
      var h;
      h, ok := BuildLocalHeap(arena, localParams);
      if ok {
        SoundView(h);
        NothingReserved(h);
      }
      R.HeapAdded(vs, if ok then ViewOf(h) else DeadView(h), owned, arena.owned, history, arena.history,
        arena.system.reuse, active);
      Enlist(h, ok);
    }

    lemma NothingReserved(h: Heap)
      requires HeapHeld(h.parts) == {}
      ensures ViewOf(h).room == iset{}
    {
      forall p: nat, n: nat ensures !Reserved(h.parts, p, n) {
        if Reserved(h.parts, p, n) {
          var i: nat :| ReservedBy(h.parts, i, p, n);
          HeldSomewhere(h.parts, p);
        }
      }
    }

    predicate LocalHeapsPossible(alignment: nat)
      reads this`localParams
    {
      Heap.Accepted(localParams, alignment) && Heap.Buildable(localParams, ThreadLocal)
    }

    // The new heap takes the last seat.
    method Enlist(h: Heap, alive: bool)
      requires Members() && Foot(h) !! Repr && this !in Repr && h.arena == arena && h.concurrency == ThreadLocal
      requires alive ==> Alive(h, |heaps| + 1)
      modifies this`heaps, this`views, this`dead, this`Repr
      ensures Members() && heaps == old(heaps) + [h] && Repr == old(Repr) + Foot(h)
      ensures views == old(views) + [if alive then ViewOf(h) else DeadView(h)]
      ensures dead == if alive then old(dead) else old(dead) + {|heaps|}
    {
      heaps, views, Repr := heaps + [h], views + [if alive then ViewOf(h) else DeadView(h)], Repr + Foot(h);
      dead := if alive then dead else dead + {|heaps|};
      OldSeatsKept();
    }

    // A heap was added behind the others, and no object changed.
    twostate lemma OldSeatsKept()
      requires old(Members()) && |heaps| == |old(heaps)| + 1 && old(heaps) <= heaps
      requires old(Repr) + Foot(Member(|heaps|)) == Repr
      requires arena.alignment == old(arena.alignment) && localParams == old(localParams) && active == old(active)
      requires |views| == |old(views)| + 1 && old(views) <= views
      requires forall i :: i <= |old(heaps)| ==> (i in dead <==> i in old(dead))
      requires old(allocated(Repr)) && unchanged(old(Repr)) && Foot(Member(|heaps|)) !! old(Repr)
      ensures forall i :: 0 <= i < |heaps| ==> Seated(i)
      ensures forall i: nat, j: nat :: FeetApart(i, j)
    {
      forall i | 0 <= i < |heaps| ensures Seated(i) {
        assert old(Seated(i));
        KeepsSeat(i);
      }
      forall i: nat, j: nat ensures FeetApart(i, j) {
        assert old(FeetApart(i, j));
        if i < j == |heaps| {
          assert old(Seated(i));
        }
      }
    }

    // When only heap k's objects changed, all other heaps keep their seats.
    twostate lemma OthersKeepSeats(k: nat)
      requires old(Members()) && heaps == old(heaps) && Repr == old(Repr) && arena.alignment == old(arena.alignment)
      requires threads == old(threads) && dead == old(dead) && localParams == old(localParams) && active == old(active)
      requires k <= |heaps| && Seated(k) && views == old(views)[k := views[k]]
      requires old(allocated(Repr)) && unchanged(old(Repr) - Foot(Member(k)))
      ensures Members()
    {
      forall i | 0 <= i <= |heaps| ensures Seated(i) {
        if i != k {
          assert old(Seated(i)) && old(FeetApart(i, k)) && old(FeetApart(k, i));
          KeepsSeat(i);
        }
      }
      forall i: nat, j: nat ensures FeetApart(i, j) {
        assert old(FeetApart(i, j));
      }
    }

    // ---- Creation ----

    method SetThreadLocalHeapCacheCount(count: nat)
      modifies this`cached
      ensures cached == count
    {
      cached := count;
    }

    // create_heaps: fit the number of slots to the metadata buffer and build the cached heaps.
    method CreateHeaps(metadataSize: nat) returns (ok: bool)
      requires Ready() && heaps == [] && dead == {} && active == 0 && threads == map[] && heapSize > 0
      modifies this`heaps, this`views, this`dead, this`Repr, this`limit, this`cached, arena, arena.system
      ensures ok ==> Ready() && SlotsOk() && dead == {} && R.AllHeld(views) == old(R.AllHeld(views))
      ensures ok ==> |heaps| == cached == (if limit < old(cached) then limit else old(cached))
      ensures ok ==> arena.alignment == old(arena.alignment)
      ensures limit == metadataSize / heapSize && (ok ==> limit > 0)
      ensures old(cached) == 0 ==> arena.cacheSize == old(arena.cacheSize) && arena.cacheUsed == old(arena.cacheUsed)
      ensures !arena.system.Refused() ==>
        (ok <==> limit > 0 && (old(cached) > 0 ==> LocalHeapsPossible(old(arena.alignment))))
      ensures arena.system.refusals >= old(arena.system.refusals)
      ensures fresh(Repr - old(Repr))
    {
      limit := metadataSize / heapSize;
      if limit == 0 {
        return false;
      }
      if limit < cached {
        cached := limit;
      }
      ok := FillCache();
    }

    method FillCache() returns (ok: bool)
      requires Ready() && heaps == [] && dead == {}
      modifies this`heaps, this`views, this`dead, this`Repr, arena, arena.system
      ensures ok ==> Ready() && |heaps| == cached && dead == {} && R.AllHeld(views) == old(R.AllHeld(views))
      ensures ok ==> arena.alignment == old(arena.alignment)
      ensures !arena.system.Refused() ==> (ok <==> cached == 0 || LocalHeapsPossible(old(arena.alignment)))
      ensures cached == 0 ==> arena.cacheSize == old(arena.cacheSize) && arena.cacheUsed == old(arena.cacheUsed)
      ensures arena.system.refusals >= old(arena.system.refusals)
      ensures fresh(Repr - old(Repr))
    {
      var i := 0;
      while i < cached
        invariant i <= cached && |heaps| == i && dead == {} && Ready() && R.AllHeld(views) == old(R.AllHeld(views))
        invariant fresh(Repr - old(Repr)) && arena.alignment == old(arena.alignment)
        invariant arena.system.refusals >= old(arena.system.refusals)
        invariant i == 0 ==> arena.cacheSize == old(arena.cacheSize) && arena.cacheUsed == old(arena.cacheUsed)
        invariant !arena.system.Refused() && i > 0 ==> LocalHeapsPossible(old(arena.alignment))
      {
        ok := CreateLocalHeap();
        if !ok {
          return false;
        }
        i := i + 1;
      }
      ok := true;
    }

    // The central heap comes first; it is not bounded.
    method CreateCentralHeap(p: HeapParams, localParams: HeapParams) returns (ok: bool)
      requires central.arena == arena && central.concurrency == Central && central.Empty()
      requires arena.Valid() && arena.Aligned() && arena.Paged() && |p.counts| == BIN_COUNT
      requires this !in Foot(central) && arena !in Foot(central) && arena.system !in Foot(central)
      requires heaps == [] && dead == {} && active == 0 && threads == map[]
      modifies this`views, this`Repr, this`localParams, Foot(central), arena, arena.system
      ensures this.localParams == localParams
      ensures ok ==> Members() && Memory() && Repr == Foot(central) && R.AllHeld(views) == {}
      ensures ok ==> central.AsCreated(p) && arena.FromCache(central.bufferLength)
      ensures arena.alignment == old(arena.alignment) && arena.system.refusals >= old(arena.system.refusals)
      ensures !arena.system.Refused() ==> (ok <==> Heap.Accepted(p, old(arena.alignment)) && Heap.Buildable(p, Central))
    {
      this.localParams := localParams;
      ok := central.Create(p);
      if ok {
        SeatCentral();
      }
    }

    // The central heap alone.
    ghost method SeatCentral()
      requires central.arena == arena && central.concurrency == Central && central.Own() && central.Backed()
      requires HeapHeld(central.parts) == {}
      requires this !in Foot(central) && arena !in Foot(central) && arena.system !in Foot(central)
      requires heaps == [] && dead == {} && active == 0 && threads == map[]
      modifies this`views, this`Repr
      ensures Members() && Memory() && Repr == Foot(central) && R.AllHeld(views) == {}
    {
      SoundView(central);
      views, Repr := [ViewOf(central)], Foot(central);
      R.OneHeap(views, arena.owned, arena.history, arena.system.reuse);
    }

    static predicate Acceptable(central: HeapParams, local: HeapParams, capacity: nat, alignment: nat, metadata: nat,
                                slots: nat, cached: nat)
    {
      && capacity > 0 && alignment > 0 && metadata > 0 && alignment % 4096 == 0 && metadata % 4096 == 0 && slots > 0
      && Heap.Accepted(central, alignment) && Heap.Buildable(central, Central)
      && (cached > 0 ==> Heap.Accepted(local, alignment) && Heap.Buildable(local, ThreadLocal))
    }

    // As long as the system refuses no request, creation succeeds exactly for acceptable parameters.
    method Create(centralParams: HeapParams, localParams: HeapParams, arenaCapacity: nat, pageAlignment: nat,
        metadataSize: nat)
      returns (ok: bool)
      requires New() && heapSize > 0 && |centralParams.counts| == BIN_COUNT && |localParams.counts| == BIN_COUNT
      modifies this, Foot(central), arena, arena.system
      ensures ok && IsPow2(pageAlignment) ==> Valid() && R.AllHeld(views) == {} && limit == metadataSize / heapSize > 0
      ensures ok ==> central.AsCreated(centralParams) && this.localParams == localParams
      ensures ok && old(cached) == 0 && central.bufferLength + pageAlignment <= arenaCapacity ==>
        arena.cacheSize == arenaCapacity && arena.cacheUsed == central.bufferLength
      ensures !arena.system.Refused() ==> (ok <==>
        Acceptable(centralParams, localParams, arenaCapacity, pageAlignment, metadataSize, metadataSize / heapSize,
          old(cached)))
    {
      if arenaCapacity == 0 || pageAlignment == 0 || metadataSize == 0 || pageAlignment % 4096 != 0
        || metadataSize % 4096 != 0 {
        return false;
      }
      DivisibleMod(pageAlignment, VM_PAGE);
      ok := arena.Create(arenaCapacity, pageAlignment);
      if ok {
        ok := CreateAll(centralParams, localParams, metadataSize);
      }
    }

    method CreateAll(centralParams: HeapParams, localParams: HeapParams, metadataSize: nat) returns (ok: bool)
      requires central.arena == arena && central.concurrency == Central && central.Empty()
      requires arena.Valid() && arena.Aligned() && arena.Paged()
      requires this !in Foot(central) && arena !in Foot(central) && arena.system !in Foot(central)
      requires heaps == [] && dead == {} && active == 0 && threads == map[]
      requires heapSize > 0 && |centralParams.counts| == BIN_COUNT && |localParams.counts| == BIN_COUNT
      modifies this, Foot(central), arena, arena.system
      ensures ok ==> Ready() && SlotsOk() && R.AllHeld(views) == {} && limit == metadataSize / heapSize > 0
      ensures ok ==> central.AsCreated(centralParams) && this.localParams == localParams
      ensures var n := central.bufferLength;
        ok && old(cached) == 0 && old(arena.HasRoom(n)) ==>
          arena.cacheSize == old(arena.cacheSize) && arena.cacheUsed == old(arena.cacheUsed) + n
      ensures ok ==> arena.alignment == old(arena.alignment)
      ensures !arena.system.Refused() ==> (ok <==>
        && Heap.Accepted(centralParams, old(arena.alignment)) && Heap.Buildable(centralParams, Central)
        && metadataSize / heapSize > 0
        && (old(cached) > 0 ==>
          Heap.Accepted(localParams, old(arena.alignment)) && Heap.Buildable(localParams, ThreadLocal)))
    {
      ok := CreateCentralHeap(centralParams, localParams);
      if ok {
        ok := CreateHeaps(metadataSize);
      }
    }

    // ---- Slots ----

    // The thread's local heap, 0 for none: the thread keeps the heap it has, and a new thread gets the next
    // one. Slots run out before the last one.
    method GetThreadLocalHeap(thread: nat) returns (k: nat)
      requires Valid()
      modifies this`heaps, this`views, this`dead, this`Repr, this`active, this`threads, arena, arena.system
      ensures Valid() && R.AllHeld(views) == old(R.AllHeld(views)) && R.Keeps(old(views), views, {}) && k <= active
      ensures k !in dead && arena.system.refusals >= old(arena.system.refusals)
      ensures k != 0 ==> thread in threads && threads[thread] == k
      ensures k != 0 && thread !in old(threads) ==> Unasked(Member(k))
      ensures thread in old(threads) ==>
        k == old(threads)[thread] && threads == old(threads) && heaps == old(heaps) && active == old(active)
      ensures thread !in old(threads) && old(active) + 1 >= limit ==>
        k == 0 && threads == old(threads) && active == old(active)
      ensures thread !in old(threads) && old(active) + 1 < limit ==>
        NewSlot(thread, k, old(threads), old(active), old(LocalHeapsPossible(arena.alignment)), arena.system.Refused())
      ensures fresh(Repr - old(Repr))
    {
      R.KeepsAll(views);
      if thread in threads {
        return threads[thread];
      }
      if active + 1 >= limit {
        return 0;
      }
      k := TakeSlot(thread);
    }

    // The slot used up is one no thread had before. The thread gets its heap, unless that could not be
    // created: the parameters do not allow it, or the system refused memory.
    ghost predicate NewSlot(thread: nat, k: nat, before: map<nat, nat>, activeBefore: nat, possible: bool,
        refused: bool)
      reads this
    {
      && active == activeBefore + 1 && (forall t :: t in before ==> before[t] != active)
      && (if k == 0 then threads == before else k == active && threads == before[thread := k])
      && (k == 0 ==> activeBefore >= cached && (refused || !possible))
    }

    // The next slot, its heap built unless it is a cached one.
    method TakeSlot(thread: nat) returns (k: nat)
      requires Valid() && thread !in threads && active + 1 < limit
      modifies this`heaps, this`views, this`dead, this`Repr, this`active, this`threads, arena, arena.system
      ensures Valid() && R.AllHeld(views) == old(R.AllHeld(views)) && R.Keeps(old(views), views, {}) && k <= active
      ensures k !in dead && arena.system.refusals >= old(arena.system.refusals) && (k != 0 ==> Unasked(Member(k)))
      ensures NewSlot(thread, k, old(threads), old(active), old(LocalHeapsPossible(arena.alignment)),
        arena.system.Refused())
      ensures fresh(Repr - old(Repr))
    {
      var ok := true;
      R.KeepsAll(views);
      if active >= cached {
        ok := CreateLocalHeap();
      }
      k := UseSlot(thread, ok);
    }

    method UseSlot(thread: nat, ok: bool) returns (k: nat)
      requires Ready() && thread !in threads
      requires active < |heaps| <= limit && active + 1 < limit && (ok <==> active + 1 !in dead)
      requires forall t :: t in threads ==> threads[t] <= active
      modifies this`active, this`threads
      ensures Members() && Memory()
      ensures active == old(active) + 1 && k == (if ok then active else 0) && (k != 0 ==> Unasked(Member(k)))
      ensures threads == if ok then old(threads)[thread := active] else old(threads)
    {
      if ok {
        assert Seated(active + 1);
      }
      active := active + 1;
      R.MoreActive(views, active - 1);
      if ok {
        threads := threads[thread := active];
        k := active;
      } else {
        k := 0;
      }
      forall i | 0 <= i <= |heaps| ensures Seated(i) {
        assert old(Seated(i));
      }
      forall i: nat, j: nat ensures FeetApart(i, j) {
        assert old(FeetApart(i, j));
      }
    }

    // ---- Allocation ----

    // What local heap k answers to a request; slot 0 stands for none.
    ghost function Answer(k: nat, size: nat): nat
      requires k <= |heaps| && Seated(k) && k !in dead
      reads this`heaps, this`views, this`dead, this`localParams, this`active, this`Repr, Repr, arena`alignment
    {
      if k == 0 then 0 else BoundedAnswer(Member(k).Plan(), Member(k).parts, size)
    }

    // A heap that no thread has used yet serves by the size alone.
    lemma FirstAnswer(k: nat, size: nat)
      requires 0 < k <= |heaps| && Seated(k) && k !in dead && Unasked(Member(k))
      ensures Answer(k, size) != 0 <==> HeapServes(localParams.big, size)
    {
      FreshAnswer(Member(k).Plan(), localParams, Member(k).parts, size);
    }

    // From the thread's own heap; if it has none or is exhausted, from the central heap, which refuses only sizes
    // too large for it as long as the system refuses nothing. What was asked for is the caller's own until it is
    // freed.
    method Allocate(thread: nat, size: nat) returns (ptr: nat)
      requires Valid()
      modifies this`heaps, this`views, this`dead, this`Repr, this`active, this`threads, Repr, arena, arena.system
      ensures Valid() && Gave(old(R.AllHeld(views)), R.AllHeld(views), ptr) && R.Keeps(old(views), views, {})
      ensures ptr != 0 ==> R.RoomIn(views, ptr, size)
      ensures thread in old(threads) ==> old(Seated(threads[thread])) && threads == old(threads)
      ensures thread in old(threads) && old(Answer(threads[thread], size)) != 0 ==>
        ptr == old(Answer(threads[thread], size))
      ensures var own := if thread in old(threads) then old(Answer(threads[thread], size)) != 0
                         else thread in threads && HeapServes(localParams.big, size);
        && (own ==> ptr != 0 && R.HolderAt(views, threads[thread], ptr))
        && (!own && ptr != 0 ==> R.HolderAt(views, 0, ptr))
        && (!own && !arena.system.Refused() ==> (ptr != 0 <==> HeapServes(central.bigPageSize, size)))
      ensures arena.system.refusals >= old(arena.system.refusals)
      ensures fresh(Repr - old(Repr))
    {
      ghost var vs := views;
      var k := GetThreadLocalHeap(thread);
      ghost var us := views;
      assert Seated(k);
      if thread !in old(threads) && k != 0 {
        FirstAnswer(k, size);
      }
      ptr := AllocateFromEither(k, size);
      R.KeepsTwice(vs, us, views);
    }

    // The central heap steps in when there is no local heap, or when it refuses.
    method AllocateFromEither(k: nat, size: nat) returns (ptr: nat)
      requires Valid() && k <= active && k !in dead
      modifies this`views, Repr, arena, arena.system
      ensures Valid() && R.Keeps(old(views), views, {}) && (ptr != 0 ==> R.RoomIn(views, ptr, size))
      ensures Gave(old(R.AllHeld(views)), R.AllHeld(views), ptr)
      ensures old(Seated(k)) && arena.system.refusals >= old(arena.system.refusals)
      ensures old(Answer(k, size)) != 0 ==> ptr == old(Answer(k, size)) && R.HolderAt(views, k, ptr)
      ensures old(Answer(k, size)) == 0 && ptr != 0 ==> R.HolderAt(views, 0, ptr)
      ensures old(Answer(k, size)) == 0 && !arena.system.Refused() ==>
        (ptr != 0 <==> HeapServes(central.bigPageSize, size))
    {
      ptr := 0;
      R.KeepsAll(views);
      assert Seated(k) && Seated(0);
      if k != 0 {
        ptr := AllocateFrom(k, size);
      }
      if ptr == 0 {
        ghost var vs, us := old(views), views;
        assert Seated(0);
        ptr := AllocateFrom(0, size);
        R.KeepsTwice(vs, us, views);
      }
    }

    method AllocateFrom(k: nat, size: nat) returns (ptr: nat)
      requires Valid() && k <= |heaps| && k <= active && k !in dead
      modifies this`views, Member(k)`parts, Member(k).bins, Member(k).big, arena, arena.system
      ensures Valid() && R.Keeps(old(views), views, {}) && (ptr != 0 ==> R.RoomIn(views, ptr, size))
      ensures Gave(old(R.AllHeld(views)), R.AllHeld(views), ptr) && (ptr != 0 ==> R.HolderAt(views, k, ptr))
      ensures old(Seated(k)) && (k > 0 ==> ptr == old(Answer(k, size)))
      ensures arena.system.refusals >= old(arena.system.refusals)
      ensures k == 0 && !arena.system.Refused() ==> (ptr != 0 <==> HeapServes(central.bigPageSize, size))
    {
      InUse(k);
      ptr := AskHeap(Member(k), size, views, k, active);
      views := views[k := ViewOf(Member(k))];
      OthersKeepSeats(k);
    }

    // ---- Deallocation ----

    // Of a pointer that some heap would drop: a bounded heap whose big-object bin lost its only page.
    ghost predicate Dropped(k: nat, ptr: nat)
      requires k <= |heaps|
      reads this`heaps, Member(k)
    {
      |Member(k).parts| == PART_COUNT && Misrouted(Member(k).Plan(), Member(k).parts, ptr)
    }

    lemma NeverDropped(k: nat, ptr: nat)
      requires Valid() && k <= |heaps| && k !in dead && (k == 0 || localParams.bigThreshold >= 1)
      ensures !Dropped(k, ptr)
    {
      assert Seated(k);
      if k > 0 {
        ThresholdKeepsBigPage(Member(k).Plan(), Member(k).parts, ptr);
      }
    }

    // A heap in use can be called.
    lemma InUse(k: nat)
      requires Valid() && k <= |heaps| && k <= active && k !in dead
      ensures Seated(k) && Member(k).Own() && Member(k).Maskable() && Member(k).smallPageSize == arena.alignment
      ensures Among(views, k, active, Member(k))
    {
      assert Seated(k);
    }

    method DeallocateIn(k: nat, ptr: nat) returns (ghost dropped: bool)
      requires Valid() && k <= active && k !in dead && R.HolderAt(views, k, ptr)
      modifies this`views, Member(k)`parts, Member(k).bins, Member(k).big, arena`owned, arena.system`mapped
      ensures Valid() && R.Keeps(old(views), views, {ptr})
      ensures dropped == old(Dropped(k, ptr))
      ensures R.AllHeld(views) == if dropped then old(R.AllHeld(views)) else old(R.AllHeld(views)) - {ptr}
    {
      InUse(k);
      dropped := TellHeap(Member(k), ptr, views, k, active);
      views := views[k := ViewOf(Member(k))];
      OthersKeepSeats(k);
    }

    // The local heaps are asked in slot order; 0 stands for the central heap.
    method FindHeap(ptr: nat) returns (k: nat)
      requires Valid()
      ensures k <= active && k == R.Route(views, active, ptr, 1)
    {
      var i := 0;
      while i < active
        invariant i <= active && R.Route(views, active, ptr, i + 1) == R.Route(views, active, ptr, 1)
      {
        assert Seated(i + 1);
        var owns := heaps[i].OwnsPointer(ptr);
        assert owns == R.Claims(views, i + 1, ptr);
        if owns {
          return i + 1;
        }
        i := i + 1;
      }
      return 0;
    }

    // The pointer goes back to the heap k that served it, and never gets lost if the big-object bins keep a
    // page. When the system may reuse addresses, or for low addresses once it refused a heap's buffer, that takes
    // a pointer that no local heap asked earlier claims.
    method Deallocate(ptr: nat, ghost k: nat)
      requires Valid()
      requires ptr != 0 ==>
        R.HolderAt(views, k, ptr) && (arena.system.reuse || R.Low(views, ptr) ==> R.Unclaimed(views, active, k, ptr))
      modifies this`views, Repr, arena`owned, arena.system`mapped
      ensures Valid() && R.Keeps(old(views), views, {ptr})
      ensures R.AllHeld(views) ==
        old(if ptr == 0 || (k <= |heaps| && Dropped(k, ptr)) then R.AllHeld(views) else R.AllHeld(views) - {ptr})
      ensures ptr != 0 && (k == 0 || localParams.bigThreshold >= 1) ==>
        R.AllHeld(views) == old(R.AllHeld(views)) - {ptr}
    {
      if ptr == 0 {
        R.KeepsAll(views);
        return;
      }
      R.RouteFound(views, arena.owned, arena.history, arena.system.reuse, active, k, ptr);
      var found := FindHeap(ptr);
      assert Seated(found) && found !in dead;
      if k == 0 || localParams.bigThreshold >= 1 {
        NeverDropped(k, ptr);
      }
      ghost var dropped := DeallocateIn(found, ptr);
    }
  }
}
