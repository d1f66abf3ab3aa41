// SimpleHeapPow2: power-of-two bins for small objects and one any-size bin for the big ones.
module SimpleHeap {
  import opened Arith
  import opened Words
  import opened Bits
  import opened Pow2Log2
  import opened ArenaModel
  import opened SegmentSpec
  import opened SegmentTheorems
  import opened SegmentList
  import opened SegmentDrain
  import opened SegmentModel
  import opened HeapSpec
  import M = SegmentRoom
  import P = LogicalPages

  class Heap {
    const arena: Arena
    const concurrency: Concurrency
    const bins: seq<Segment>
    const big: Segment

    var bufferAddress: nat
    var bufferLength: nat
    var smallPageSize: nat
    var bigPageSize: nat
    ghost var counts: seq<nat>
    ghost var bigThreshold: nat
    ghost var parts: seq<Part>

    ghost predicate Shape() {
      && |bins| == BIN_COUNT
      && (forall i :: 0 <= i < PART_COUNT ==> Wired(i))
      && (forall i, j :: 0 <= i < j < PART_COUNT ==> Object(i) != Object(j))
    }

    ghost predicate Wired(i: nat)
      requires |bins| == BIN_COUNT && i < PART_COUNT
    {
      Object(i).arena == arena && Object(i).concurrency == concurrency && Object(i).aligned == (i != BIG)
    }

    // Part i of the heap, the big-object bin last.
    function Object(i: nat): Segment
      requires |bins| == BIN_COUNT && i < PART_COUNT
    {
      if i == BIG then big else bins[i]
    }

    // parts[i] is what part i looks like.
    ghost predicate Mirrors(i: nat)
      requires |bins| == BIN_COUNT && i < PART_COUNT
      reads this`parts, Object(i)
    {
      i < |parts| && parts[i] == Part(Object(i).seg, Object(i).queue) && Object(i).Valid()
    }

    ghost function Plan(): Layout
      reads this`smallPageSize, this`bigPageSize, this`counts, this`bufferAddress, this`bigThreshold
    {
      Layout(concurrency == ThreadLocal, smallPageSize, bigPageSize, counts, bufferAddress, bigThreshold)
    }

    ghost predicate Own()
      reads this, bins, big
    {
      && Shape()
      && (forall i :: 0 <= i < PART_COUNT ==> Mirrors(i))
      && HeapSpec.Inv(Plan(), parts)
      && smallPageSize < WORD_LIMIT && Divisible(bigPageSize, smallPageSize)
      && bufferLength == RequiredBuffer(counts, smallPageSize, bigPageSize)
      && (concurrency == ThreadLocal ==> big.bufferLength == bigPageSize)
    }

    ghost predicate Backed()
      reads this, arena, arena.system
    {
      && arena.Valid() && arena.Aligned() && arena.Paged() && arena.alignment == smallPageSize
      && HeapBytes(parts) <= arena.owned
    }

    // What the look-ups by mask need, and creation does not check.
    ghost predicate Maskable()
      reads this`smallPageSize
    {
      IsPow2(smallPageSize)
    }

    // What this heap gained or lost, the arena gained or lost; the gain is memory not handed out before.
    ghost predicate Traded(owned: set<nat>, history: set<nat>, bytes: set<nat>)
      reads this, arena
    {
      && arena.owned - HeapBytes(parts) == owned - bytes
      && history <= arena.history
      && (!arena.system.reuse ==> HeapBytes(parts) - bytes !! history)
    }

    constructor (arena: Arena, concurrency: Concurrency)
      ensures this.arena == arena && this.concurrency == concurrency && Shape()
      ensures fresh(big) && (forall b :: b in bins ==> fresh(b)) && Empty()
    {
      this.arena, this.concurrency := arena, concurrency;
      var built: seq<Segment> := [];
      while |built| < BIN_COUNT
        invariant |built| <= BIN_COUNT
        invariant forall i :: 0 <= i < |built| ==>
          && fresh(built[i]) && built[i].Started()
          && built[i].arena == arena && built[i].concurrency == concurrency && built[i].aligned
        invariant forall i, j :: 0 <= i < j < |built| ==> built[i] != built[j]
      {
        var bin := new Segment(concurrency, true, arena);
        built := built + [bin];
      }
      bins := built;
      big := new Segment(concurrency, false, arena);
      bufferAddress, bufferLength, smallPageSize, bigPageSize := 0, 0, 0, 0;
      counts, bigThreshold, parts := [], 0, [];
    }

    // ---- Creation ----

    ghost predicate Empty()
      reads bins, big
    {
      Shape() && forall i :: 0 <= i < PART_COUNT ==> Object(i).Started()
    }

    // The arena's answer is memory for the whole buffer, if it is not 0.
    ghost predicate BufferOk(p: HeapParams)
      reads this, arena
    {
      bufferAddress != 0 ==>
        && GoodPlan(Plan(), p) && Divisible(bufferAddress, p.small)
        && Range(bufferAddress, RequiredBuffer(counts, smallPageSize, bigPageSize)) <= arena.owned
    }

    // Create part i at its place in the buffer.
    method CreatePart(p: HeapParams, i: nat, address: nat) returns (ok: bool)
      requires Shape() && i < PART_COUNT && Wired(i) && Object(i).Started() && arena.Valid() && arena.Paged()
      requires |p.counts| == BIN_COUNT && |counts| == BIN_COUNT && address == PartStart(Plan(), i)
      requires BufferOk(p) && (bufferAddress == 0 ==> address == 0)
      modifies Object(i), arena`owned, arena.system`mapped
      ensures ok <==>
        && bufferAddress != 0 && PartPages(p, i) > 0
        && (concurrency == ThreadLocal && i != BIG ==> p.capacity >= 65536)
      ensures ok ==> Object(i).Valid() && FreshPart(Plan(), p, i, Part(Object(i).seg, Object(i).queue))
      ensures arena.owned == old(arena.owned)
      ensures ok && i == BIG && concurrency == ThreadLocal ==> big.bufferLength == p.big
      ensures arena.Valid()
    {
      if bufferAddress != 0 {
        PartPlace(Plan(), p, i);
        PartInBuffer(Plan(), i);
        PartAligned(Plan(), p, i);
        if PartPages(p, i) > 0 {
          PartBuildable(Plan(), p, i);
        }
      }
      ok := Object(i).Create(address, PartPages(p, i), if i == BIG then 65536 else p.capacity, PartConfig(p, i));
    }

    ghost predicate StartedFrom(n: nat)
      requires Shape()
      reads bins, big
    {
      forall j :: n <= j < PART_COUNT ==> Object(j).Started()
    }

    ghost predicate MirrorsUpTo(n: nat)
      requires Shape() && n <= PART_COUNT
      reads this`parts, bins, big
    {
      forall j :: 0 <= j < n ==> Mirrors(j)
    }

    // Create part i and put it on record.
    method AddPart(p: HeapParams, i: nat, index: nat) returns (ok: bool)
      requires Shape() && i < PART_COUNT && StartedFrom(i) && MirrorsUpTo(i) && arena.Valid() && arena.Paged()
      requires |p.counts| == BIN_COUNT && |counts| == BIN_COUNT && index == PagesBefore(counts, i) * smallPageSize
      requires BufferOk(p) && (bufferAddress == 0 ==> i == 0)
      requires |parts| == i && AllFresh(Plan(), p, parts)
      modifies this`parts, Object(i), arena`owned, arena.system`mapped
      ensures ok <==>
        && bufferAddress != 0 && PartPages(p, i) > 0
        && (concurrency == ThreadLocal && i != BIG ==> p.capacity >= 65536)
      ensures ok ==> |parts| == i + 1 && AllFresh(Plan(), p, parts) && MirrorsUpTo(i + 1) && StartedFrom(i + 1)
      ensures arena.owned == old(arena.owned)
      ensures ok && i == BIG && concurrency == ThreadLocal ==> big.bufferLength == p.big
      ensures arena.Valid()
    {
      assert Wired(i);
      ok := CreatePart(p, i, bufferAddress + index);
      forall j | 0 <= j < i ensures Mirrors(j) {
        assert old(Mirrors(j));
      }
      if ok {
        Record(p, i);
      }
    }

    ghost method Record(p: HeapParams, i: nat)
      requires Shape() && i < PART_COUNT && MirrorsUpTo(i) && Object(i).Valid()
      requires |p.counts| == BIN_COUNT && |counts| == BIN_COUNT && |parts| == i && AllFresh(Plan(), p, parts)
      requires FreshPart(Plan(), p, i, Part(Object(i).seg, Object(i).queue))
      modifies this`parts
      ensures |parts| == i + 1 && AllFresh(Plan(), p, parts) && MirrorsUpTo(i + 1)
    {
      FreshOneMore(Plan(), p, parts, Part(Object(i).seg, Object(i).queue));
      parts := parts + [Part(Object(i).seg, Object(i).queue)];
      forall j | 0 <= j < i ensures Mirrors(j) {
        assert old(Mirrors(j));
      }
    }

    // The first n bins are built, and index is where the next one goes.
    ghost predicate BinsUpTo(p: HeapParams, n: nat, index: nat)
      requires Shape() && |counts| == BIN_COUNT && n <= BIN_COUNT
      reads this, bins, big
    {
      && |p.counts| == BIN_COUNT && index == PagesBefore(p.counts, n) * smallPageSize
      && (n > 0 ==> bufferAddress != 0 && (concurrency == ThreadLocal ==> p.capacity >= 65536))
      && (forall j :: 0 <= j < n ==> p.counts[j] > 0)
      && |parts| == n && AllFresh(Plan(), p, parts) && MirrorsUpTo(n) && StartedFrom(n)
    }

    method AddBin(p: HeapParams, i: nat, index: nat) returns (ok: bool, next: nat)
      requires Shape() && |counts| == BIN_COUNT && i < BIN_COUNT && counts == p.counts && BinsUpTo(p, i, index)
      requires BufferOk(p) && arena.Valid() && arena.Paged()
      modifies this`parts, Object(i), arena`owned, arena.system`mapped
      ensures ok <==>
        && bufferAddress != 0 && p.counts[i] > 0
        && (concurrency == ThreadLocal ==> p.capacity >= 65536)
      ensures ok ==> BinsUpTo(p, i + 1, next)
      ensures arena.Valid() && arena.owned == old(arena.owned)
    {
      ok := AddPart(p, i, index);
      NextPart(p.counts, smallPageSize, i);
      next := index + p.counts[i] * smallPageSize;
    }

    // The bins come first, one behind the other.
    method CreateBins(p: HeapParams) returns (ok: bool, index: nat)
      requires Empty() && arena.Valid() && arena.Paged() && |p.counts| == BIN_COUNT && counts == p.counts
      requires BufferOk(p) && parts == []
      modifies this`parts, bins, arena`owned, arena.system`mapped
      ensures ok <==> bufferAddress != 0 && Buildable(p, concurrency)
      ensures ok ==> BinsUpTo(p, BIG, index)
      ensures arena.Valid() && arena.owned == old(arena.owned)
    {
      index := 0;
      for i := 0 to BIN_COUNT
        invariant BinsUpTo(p, i, index)
        invariant arena.Valid() && arena.Paged() && arena.owned == old(arena.owned)
      {
        assert Object(i) in bins;
        ok, index := AddBin(p, i, index);
        if !ok {
          return;
        }
      }
      ok := true;
    }

    // The big-object bin gets the rest of the buffer.
    method CreateParts(p: HeapParams) returns (ok: bool)
      requires Empty() && arena.Valid() && arena.Paged() && |p.counts| == BIN_COUNT && counts == p.counts
      requires BufferOk(p) && parts == []
      modifies this`parts, bins, big, arena`owned, arena.system`mapped
      ensures ok <==> bufferAddress != 0 && Buildable(p, concurrency)
      ensures ok ==> |parts| == PART_COUNT && AllFresh(Plan(), p, parts) && MirrorsUpTo(PART_COUNT)
      ensures arena.owned == old(arena.owned) && (ok && concurrency == ThreadLocal ==> big.bufferLength == p.big)
      ensures arena.Valid()
    {
      var index;
      ok, index := CreateBins(p);
      if ok {
        ok := AddPart(p, BIG, index);
      }
    }

    // The heap is as creation leaves it.
    ghost predicate AsCreated(p: HeapParams)
      reads this
    {
      GoodPlan(Plan(), p) && |parts| == PART_COUNT && AllFresh(Plan(), p, parts)
    }

    // Every part has the parameters meant for it and the number of pages asked for, all of them unused.
    ghost predicate Configured(p: HeapParams)
      reads this
    {
      && |parts| == PART_COUNT && |p.counts| == BIN_COUNT
      && parts[BIG].seg.cfg == Config(p.big, 0, p.coalesce, p.bigThreshold, 0.0) && |parts[BIG].seg.slots| == 1
      && forall i :: 0 <= i < BIN_COUNT ==>
           && parts[i].seg.cfg == Config(p.small, BinSizeClass(i), p.coalesce, p.smallThreshold, p.coefficient)
           && |parts[i].seg.slots| == p.counts[i]
    }

    // The heap is ready when all parts are.
    method CreateInBuffer(p: HeapParams) returns (ok: bool)
      requires Empty() && arena.Valid() && arena.Paged() && |p.counts| == BIN_COUNT && counts == p.counts
      requires BufferOk(p) && parts == []
      requires smallPageSize == p.small && bigPageSize == p.big && p.small > 0 && Divisible(bigPageSize, smallPageSize)
      requires bufferLength == RequiredBuffer(counts, smallPageSize, bigPageSize)
      modifies this`parts, bins, big, arena`owned, arena.system`mapped
      ensures ok <==> bufferAddress != 0 && Buildable(p, concurrency)
      ensures ok ==> Own() && HeapHeld(parts) == {} && HeapBytes(parts) == Range(bufferAddress, bufferLength)
      ensures ok ==> AsCreated(p) && Configured(p)
      ensures arena.owned == old(arena.owned)
      ensures arena.Valid()
    {
      ok := CreateParts(p);
      if ok {
        SmallPageFits(Plan(), p);
        FreshHeap(Plan(), p, parts);
        PartsConfigured(Plan(), p, parts);
      }
    }

    static predicate Buildable(p: HeapParams, concurrency: Concurrency) {
      (forall i :: 0 <= i < |p.counts| ==> p.counts[i] > 0) && (concurrency == ThreadLocal ==> p.capacity >= 65536)
    }

    // calculate_required_buffer_size
    static method RequiredBufferSize(p: HeapParams) returns (size: nat)
      requires |p.counts| == BIN_COUNT
      ensures size == RequiredBuffer(p.counts, p.small, p.big)
    {
      size := 0;
      for i := 0 to BIN_COUNT
        invariant size == PagesBefore(p.counts, i) * p.small
      {
        NextPart(p.counts, p.small, i);
        size := size + p.counts[i] * p.small;
      }
      size := size + p.big;
    }

    static predicate Accepted(p: HeapParams, alignment: nat) {
      && p.small >= 4096 && alignment == p.small && p.big > 0 && p.big % p.small == 0
      && p.small % 4096 == 0 && p.big % 4096 == 0
    }

    method Create(p: HeapParams) returns (ok: bool)
      requires Empty() && arena.Valid() && arena.Aligned() && arena.Paged() && |p.counts| == BIN_COUNT
      modifies this, bins, big, arena, arena.system
      ensures ok <==> Accepted(p, old(arena.alignment)) && bufferAddress != 0 && Buildable(p, concurrency)
      ensures ok ==> Ready(p) && Traded(old(arena.owned), old(arena.history), {}) && arena.FromCache(bufferLength)
      ensures arena.Valid() && arena.Aligned() && arena.Paged() && arena.alignment == old(arena.alignment)
      ensures NewBuffer(old(arena.owned), old(arena.history))
      ensures bufferAddress == 0 ==>
        (if Accepted(p, old(arena.alignment)) then arena.system.Refused() else bufferLength == 0)
      ensures arena.system.refusals >= old(arena.system.refusals)
    {
      bufferAddress, bufferLength, parts := 0, 0, [];
      if p.small < 4096 || arena.alignment != p.small || p.big == 0 || p.big % p.small > 0 {
        return false;
      }
      if p.small % 4096 != 0 || p.big % 4096 != 0 {
        return false;
      }
      ok := CreateAccepted(p);
    }

    // A heap that creation has finished holds nothing, and its pages are its buffer.
    ghost predicate Ready(p: HeapParams)
      reads this, bins, big, arena, arena.system
    {
      && Own() && Backed() && HeapHeld(parts) == {} && HeapBytes(parts) == Range(bufferAddress, bufferLength)
      && bigThreshold == p.bigThreshold && AsCreated(p) && Configured(p)
    }

    method CreateAccepted(p: HeapParams) returns (ok: bool)
      requires Empty() && arena.Valid() && arena.Aligned() && arena.Paged() && |p.counts| == BIN_COUNT
      requires Accepted(p, arena.alignment) && parts == []
      modifies this, bins, big, arena, arena.system
      ensures ok <==> bufferAddress != 0 && Buildable(p, concurrency)
      ensures ok ==> Ready(p) && Traded(old(arena.owned), old(arena.history), {}) && arena.FromCache(bufferLength)
      ensures arena.Valid() && arena.Aligned() && arena.Paged() && arena.alignment == old(arena.alignment)
      ensures NewBuffer(old(arena.owned), old(arena.history))
      ensures bufferAddress == 0 ==> arena.system.Refused()
      ensures arena.system.refusals >= old(arena.system.refusals)
    {
      Reserve(p);
      ok := CreateInBuffer(p);
    }

    // Whether or not creation succeeds, the buffer is memory that was never handed out before.
    ghost predicate NewBuffer(owned: set<nat>, history: set<nat>)
      reads this, arena
    {
      && owned <= arena.owned && history <= arena.history
      && (bufferAddress != 0 ==>
            && Range(bufferAddress, bufferLength) <= arena.history
            && (!arena.system.reuse ==> Range(bufferAddress, bufferLength) !! history))
    }

    // Ask the arena for memory for all parts.
    method Reserve(p: HeapParams)
      requires arena.Valid() && arena.Aligned() && arena.Paged() && |p.counts| == BIN_COUNT
      requires Accepted(p, arena.alignment)
      modifies this`smallPageSize, this`bigPageSize, this`counts, this`bigThreshold, this`bufferAddress,
        this`bufferLength
      modifies arena, arena.system
      ensures smallPageSize == p.small && bigPageSize == p.big && counts == p.counts && bigThreshold == p.bigThreshold
      ensures Divisible(bigPageSize, smallPageSize)
      ensures bufferLength == RequiredBuffer(counts, smallPageSize, bigPageSize) && BufferOk(p)
      ensures arena.Valid() && arena.alignment == p.small && arena.Aligned() && arena.Paged()
      ensures old(arena.owned) <= arena.owned && old(arena.history) <= arena.history
      ensures arena.system.refusals >= old(arena.system.refusals)
      ensures bufferAddress == 0 ==> arena.system.Refused()
      ensures arena.FromCache(bufferLength)
      ensures bufferAddress != 0 ==>
        && arena.owned - Range(bufferAddress, bufferLength) == old(arena.owned)
        && Range(bufferAddress, bufferLength) <= arena.history
        && (!arena.system.reuse ==> Range(bufferAddress, bufferLength) !! old(arena.history))
    {
      smallPageSize, bigPageSize, counts, bigThreshold := p.small, p.big, p.counts, p.bigThreshold;
      bufferLength := RequiredBufferSize(p);
      BufferSizes(p);
      bufferAddress := arena.Allocate(bufferLength);
    }

    // ---- Allocation ----

    // Ask one part.
    method AskPart(k: nat, size: nat) returns (ptr: nat)
      requires Shape() && ValidLayout(Plan()) && Divisible(bigPageSize, smallPageSize)
      requires k < PART_COUNT && (k == BIG ==> size > 0) && (concurrency == ThreadLocal ==> Maskable())
      requires Wired(k) && Object(k).Valid() && Object(k).Backed() && arena.Aligned()
      requires arena.alignment == smallPageSize
      requires PartOk(Plan(), k, Part(Object(k).seg, Object(k).queue))
      modifies Object(k), arena, arena.system
      ensures Object(k).Valid() && Object(k).Backed() && Object(k).bufferLength == old(Object(k).bufferLength)
      ensures arena.alignment == old(arena.alignment) && arena.Valid() && arena.Aligned()
      ensures PartOk(Plan(), k, Part(Object(k).seg, Object(k).queue))
      ensures Gave(old(Held(Object(k).seg, Object(k).queue)), Held(Object(k).seg, Object(k).queue), ptr)
      ensures arena.owned - Bytes(Object(k).seg) == old(arena.owned - Bytes(Object(k).seg))
      ensures Object(k).NewMemory(old(arena.history), old(Bytes(Object(k).seg)))
      ensures PartKeeps(old(Part(Object(k).seg, Object(k).queue)), Part(Object(k).seg, Object(k).queue), {})
      ensures ptr != 0 ==> M.Reserved(Object(k).seg, ptr, M.Room(old(Object(k).seg), size))
      ensures concurrency == ThreadLocal ==> ptr == old(AllocateLocal(Object(k).seg, Object(k).queue, size)).1
      ensures arena.system.refusals >= old(arena.system.refusals)
      ensures concurrency != ThreadLocal && !arena.system.Refused() ==> (ptr != 0 <==> PartServes(Plan(), k, size))
    {
      ghost var part := Part(Object(k).seg, Object(k).queue);
      assert Wired(k);
      InvUsable(part.seg);
      DivisibleMultiple(1, smallPageSize);
      ghost var buffer;
      ptr, buffer := Object(k).Allocate(size);
      if concurrency == ThreadLocal {
        BoundedPart(Plan(), k, part, size, Object(k).seg, ptr);
      } else {
        UnboundedPart(Plan(), k, part, size, buffer, Object(k).seg, ptr);
      }
    }

    // When only part k changed, all others still look as recorded.
    twostate lemma OthersMirror(k: nat)
      requires Shape() && k < PART_COUNT && Mirrors(k) && |old(parts)| == PART_COUNT
      requires parts == old(parts)[k := parts[k]]
      requires old(forall i :: 0 <= i < PART_COUNT ==> Mirrors(i))
      requires forall i :: 0 <= i < PART_COUNT && i != k ==> old(allocated(Object(i))) && unchanged(Object(i))
      ensures forall i :: 0 <= i < PART_COUNT ==> Mirrors(i)
    {
      forall i | 0 <= i < PART_COUNT ensures Mirrors(i) {
        assert old(Mirrors(i));
      }
    }

    // One part serves; the others are not touched.
    method AllocateIn(k: nat, size: nat) returns (ptr: nat)
      requires Own() && Backed() && k < PART_COUNT && (k == BIG ==> size > 0)
      requires concurrency == ThreadLocal ==> Maskable()
      modifies this`parts, Object(k), arena, arena.system
      ensures Own() && Backed()
      ensures Gave(old(HeapHeld(parts)), HeapHeld(parts), ptr) && (ptr != 0 ==> HeldBy(parts, k, ptr))
      ensures Keeps(old(parts), parts, {}) && PartAt(old(Plan()), old(parts), k)
      ensures ptr != 0 ==> M.Reserved(parts[k].seg, ptr, M.Room(old(parts)[k].seg, size))
      ensures concurrency == ThreadLocal ==> ptr == AllocateLocal(old(parts)[k].seg, old(parts)[k].queue, size).1
      ensures parts == old(parts)[k := parts[k]] && arena.system.refusals >= old(arena.system.refusals)
      ensures concurrency != ThreadLocal && !arena.system.Refused() ==> (ptr != 0 <==> PartServes(Plan(), k, size))
      ensures Traded(old(arena.owned), old(arena.history), old(HeapBytes(parts)))
    {
      ghost var l, ps, owned := Plan(), parts, arena.owned;
      assert PartAt(l, ps, k) && Mirrors(k) && Wired(k);
      OneAndOthers(ps, k);
      ptr := AskPart(k, size);
      ghost var part := Part(Object(k).seg, Object(k).queue);
      PartServed(l, ps, k, part, owned, arena.owned, ptr);
      HeapKeeps(ps, k, part, {});
      parts := ps[k := part];
      OthersMirror(k);
    }

    // Small requests go to the smallest bin that fits, the others to the big-object bin. No other part changes. An
    // unbounded heap serves by the size alone, unless the system refuses memory.
    method Allocate(size: nat) returns (ptr: nat, ghost k: nat)
      requires Own() && Backed() && (concurrency == ThreadLocal ==> Maskable())
      modifies this`parts, bins, big, arena, arena.system
      ensures Own() && Backed()
      ensures Gave(old(HeapHeld(parts)), HeapHeld(parts), ptr) && (ptr != 0 ==> HeldBy(parts, k, ptr))
      ensures k == ServingPart(size) && (concurrency == ThreadLocal ==> ptr == old(BoundedAnswer(Plan(), parts, size)))
      ensures k != BIG ==> size <= BinSizeClass(k) && forall j: nat :: j < k ==> BinSizeClass(j) < size
      ensures parts == old(parts)[k := parts[k]] && arena.system.refusals >= old(arena.system.refusals)
      ensures concurrency != ThreadLocal && !arena.system.Refused() ==> (ptr != 0 <==> HeapServes(bigPageSize, size))
      ensures Keeps(old(parts), parts, {}) && (ptr != 0 ==> Reserved(parts, ptr, size))
      ensures Traded(old(arena.owned), old(arena.history), old(HeapBytes(parts)))
    {
      if size <= LARGEST_SIZE_CLASS {
        k := SmallRequestBin(size);
        BinOfSizeClass(k);
        var adjusted := AdjustSize(size);
        var index := BinIndex(adjusted);
        assert Object(index) in bins;
        ServesAsked(Plan(), parts, index, size);
        ptr := AllocateIn(index, adjusted);
        RoomAsked(Plan(), parts, old(parts), index, ptr, adjusted, size);
      } else {
        k := BIG;
        ServesAsked(Plan(), parts, BIG, size);
        ptr := AllocateIn(BIG, size);
        RoomAsked(Plan(), parts, old(parts), BIG, ptr, size, size);
      }
    }

    // ---- Deallocation ----

    // Give the pointer to part k; a part without pages drops it.
    method GiveBack(k: nat, ptr: nat)
      requires Shape() && ValidLayout(Plan()) && k < PART_COUNT && Wired(k)
      requires Object(k).Valid() && Object(k).Backed() && Maskable()
      requires PartOk(Plan(), k, Part(Object(k).seg, Object(k).queue))
      requires Object(k).head != 0 ==> ptr > 0 && ptr in Held(Object(k).seg, Object(k).queue)
      modifies Object(k), arena`owned, arena.system`mapped
      ensures Object(k).Valid() && Object(k).Backed() && Object(k).bufferLength == old(Object(k).bufferLength)
      ensures PartOk(Plan(), k, Part(Object(k).seg, Object(k).queue))
      ensures Part(Object(k).seg, Object(k).queue) == TakenBack(Plan(), old(Part(Object(k).seg, Object(k).queue)), ptr)
      ensures old(Object(k).head) == 0 ==>
        Held(Object(k).seg, Object(k).queue) == old(Held(Object(k).seg, Object(k).queue))
      ensures old(Object(k).head) != 0 ==>
        Held(Object(k).seg, Object(k).queue) == old(Held(Object(k).seg, Object(k).queue)) - {ptr}
      ensures PartKeeps(old(Part(Object(k).seg, Object(k).queue)), Part(Object(k).seg, Object(k).queue), {ptr})
      ensures arena.owned - Bytes(Object(k).seg) == old(arena.owned - Bytes(Object(k).seg))
      ensures Bytes(Object(k).seg) <= old(Bytes(Object(k).seg))
    {
      ghost var part := Part(Object(k).seg, Object(k).queue);
      InvDistinct(part.seg);
      Object(k).Deallocate(ptr);
      if old(Object(k).head) != 0 {
        FreedPart(Plan(), k, part, ptr, Object(k).seg, Object(k).queue);
      }
    }

    method FreeIn(k: nat, ptr: nat)
      requires Own() && Backed() && Maskable() && k < PART_COUNT && (parts[k].seg.slots != [] ==> HeldBy(parts, k, ptr))
      modifies this`parts, Object(k), arena`owned, arena.system`mapped
      ensures Own() && Backed()
      ensures HeapHeld(parts) == old(if parts[k].seg.slots == [] then HeapHeld(parts) else HeapHeld(parts) - {ptr})
      ensures parts == old(parts)[k := TakenBack(Plan(), old(parts)[k], ptr)]
      ensures Keeps(old(parts), parts, {ptr})
      ensures Traded(old(arena.owned), old(arena.history), old(HeapBytes(parts)))
    {
      ghost var l, ps, owned := Plan(), parts, arena.owned;
      assert PartAt(l, ps, k) && Mirrors(k) && Wired(k);
      OneAndOthers(ps, k);
      PageAddress(l, ps, k, ptr);
      GiveBack(k, ptr);
      ghost var part := Part(Object(k).seg, Object(k).queue);
      PartFreed(l, ps, k, part, owned, arena.owned, ptr);
      HeapKeeps(ps, k, part, {ptr});
      parts := ps[k := part];
      OthersMirror(k);
    }

    // owns_pointer of the big-object bin.
    method BigBinOwns(ptr: nat) returns (owns: bool)
      requires Own()
      ensures owns == BigOwns(Plan(), parts, ptr)
    {
      assert Mirrors(BIG) && Wired(BIG);
      owns := big.OwnsPointer(ptr);
    }

    // get_size_class_from_address: read the size class in the page header at the masked address. The
    // memory there belongs to whichever segment has a page at that address.
    method SizeClassFromAddress(ptr: nat, ghost k: nat) returns (sizeClass: nat)
      requires Own() && Maskable() && HeldBy(parts, k, ptr) && k < BIG
      ensures sizeClass == BinSizeClass(k)
    {
      MaskRouting(Plan(), parts, k, ptr);
      var a := MaskedPage(ptr, smallPageSize);
      HeaderOf(k, a);
      var i := 0;
      while i < PART_COUNT && a !in Object(i).headers
        invariant i <= k
      {
        i := i + 1;
      }
      NoStrayHeader(i, a);
      return P.SizeClass(Object(i).headers[a].page);
    }

    lemma HeaderOf(k: nat, a: nat)
      requires Own() && Maskable() && k < BIG && HasPage(parts[k].seg.slots, a)
      ensures a in Object(k).headers && P.SizeClass(Object(k).headers[a].page) == BinSizeClass(k)
    {
      assert Mirrors(k) && PartAt(Plan(), parts, k);
      var s := Object(k).seg;
      var i: nat :| PageAt(s.slots, i, a);
      assert NodeAt(Object(k).headers, s.slots, i) && GoodSlot(s, i);
    }

    lemma NoStrayHeader(i: nat, a: nat)
      requires Own() && Maskable() && i < PART_COUNT
      ensures a in Object(i).headers ==> HasPage(parts[i].seg.slots, a)
    {
      assert Mirrors(i) && Stray(Object(i).headers, a) == (a in Object(i).headers);
    }

    // The pointer goes back to the part that served it, by address alone. It is dropped exactly when
    // a bounded big-object bin has no page left and takes a low address for its own.
    method Deallocate(ptr: nat)
      requires Own() && Backed() && Maskable() && ptr in HeapHeld(parts)
      modifies this`parts, bins, big, arena`owned, arena.system`mapped
      ensures Own() && Backed()
      ensures HeapHeld(parts)
        == if old(Misrouted(Plan(), parts, ptr)) then old(HeapHeld(parts)) else old(HeapHeld(parts)) - {ptr}
      ensures bigThreshold >= 1 ==> HeapHeld(parts) == old(HeapHeld(parts)) - {ptr}
      ensures old(Misrouted(Plan(), parts, ptr)) ==> parts == old(parts)
      ensures forall k: nat :: HeldBy(old(parts), k, ptr) && !old(Misrouted(Plan(), parts, ptr)) ==>
        parts == old(parts)[k := TakenBack(Plan(), old(parts)[k], ptr)]
      ensures Keeps(old(parts), parts, {ptr})
      ensures Traded(old(arena.owned), old(arena.history), old(HeapBytes(parts)))
    {
      HeldSomewhere(parts, ptr);
      ghost var k: nat :| HeldBy(parts, k, ptr);
      HeldInside(Plan(), parts, k, ptr);
      BigRouting(Plan(), parts, k, ptr);
      if bigThreshold >= 1 {
        ThresholdKeepsBigPage(Plan(), parts, ptr);
      }
      var owns := BigBinOwns(ptr);
      if !owns {
        var sizeClass := SizeClassFromAddress(ptr, k);
        BinOfSizeClass(k);
        var index := BinIndex(sizeClass);
        assert Object(index) in bins;
        FreeIn(index, ptr);
      } else {
        FreeIn(BIG, ptr);
      }
    }

    // The size class of a small object; for a big one what its page says, and 0 where routing fails.
    method GetUsableSize(ptr: nat) returns (usable: int)
      requires Own() && Maskable() && ptr in HeapHeld(parts)
      ensures Misrouted(Plan(), parts, ptr) ==> usable == 0
      ensures forall k: nat :: HeldBy(parts, k, ptr) && !Misrouted(Plan(), parts, ptr) ==>
        usable == M.UsableSize(parts[k].seg, ptr)
    {
      HeldSomewhere(parts, ptr);
      ghost var k: nat :| HeldBy(parts, k, ptr);
      HeldInside(Plan(), parts, k, ptr);
      BigRouting(Plan(), parts, k, ptr);
      assert Mirrors(BIG) && PartAt(Plan(), parts, k) && PartAt(Plan(), parts, BIG);
      var owns := BigBinOwns(ptr);
      if !owns {
        usable := SizeClassFromAddress(ptr, k);
      } else {
        usable := big.GetUsableSize(ptr);
      }
    }

    // HeapBase::owns_pointer: a range test on the buffer.
    method OwnsPointer(ptr: nat) returns (owns: bool)
      ensures owns == (bufferAddress <= ptr < bufferAddress + bufferLength)
      ensures Own() && concurrency == ThreadLocal && ptr in HeapHeld(parts) ==> owns
    {
      if Own() {
        BoundedHeap(Plan(), parts, ptr);
      }
      return bufferAddress <= ptr < bufferAddress + bufferLength;
    }
  }
}
