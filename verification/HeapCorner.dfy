// The one case that routing by address misses, reached by a run of the heap.
module HeapCorner {
  import opened Arith
  import opened Bits
  import opened Pow2Log2
  import opened SegmentSpec
  import opened SegmentTheorems
  import opened SegmentLookup
  import opened SegmentDrain
  import opened HeapSpec
  import opened HeapProtocol
  import opened HeapRuns
  import S = Protocol
  import P = LogicalPages

  // ---- A heap as creation leaves it ----

  ghost predicate PagesEach(l: Layout, p: HeapParams) {
    && GoodPlan(l, p) && Divisible(l.buffer, p.small)
    && forall i :: 0 <= i < PART_COUNT ==> PartPages(p, i) >= 1
  }

  ghost function NewSeg(l: Layout, p: HeapParams, i: nat): Seg
    requires PagesEach(l, p) && i < PART_COUNT
  {
    PartBuildable(l, p, i);
    Seg(PartConfig(p, i), FreshSlots(PartConfig(p, i), PartStart(l, i), PartPages(p, i)), 0)
  }

  ghost function NewParts(l: Layout, p: HeapParams, n: nat): seq<Part>
    requires PagesEach(l, p) && n <= PART_COUNT
  {
    if n == 0 then [] else NewParts(l, p, n - 1) + [Part(NewSeg(l, p, n - 1), [])]
  }

  lemma FirstFresh(c: Config, buffer: nat, n: nat)
    requires ValidConfig(c) && n >= 1
    ensures |FreshSlots(c, buffer, n)| == n
    ensures FreshSlots(c, buffer, n)[0]
      == Slot(buffer, P.Fresh(buffer + HEADER, buffer + c.pageSize, c.sizeClass, c.coalesce), true)
  {
    FreshSlotsAt(c, buffer, n);
  }

  lemma NewSegFresh(l: Layout, p: HeapParams, i: nat)
    requires PagesEach(l, p) && i < PART_COUNT
    ensures FreshPart(l, p, i, Part(NewSeg(l, p, i), []))
    ensures |NewSeg(l, p, i).slots| == PartPages(p, i) && NewSeg(l, p, i).slots[0].addr == PartStart(l, i)
    ensures NewSeg(l, p, i).slots[0].page ==
      P.Fresh(PartStart(l, i) + HEADER, PartStart(l, i) + PartConfig(p, i).pageSize, PartConfig(p, i).sizeClass,
        p.coalesce)
  {
    PartBuildable(l, p, i);
    PartAligned(l, p, i);
    FirstFresh(PartConfig(p, i), PartStart(l, i), PartPages(p, i));
    if i != BIG {
      FreshAligned(PartConfig(p, i), PartStart(l, i), PartPages(p, i));
    }
  }

  lemma {:induction false} NewPartsFresh(l: Layout, p: HeapParams, n: nat)
    requires PagesEach(l, p) && n <= PART_COUNT
    ensures |NewParts(l, p, n)| == n && AllFresh(l, p, NewParts(l, p, n))
    ensures forall i :: 0 <= i < n ==> NewParts(l, p, n)[i] == Part(NewSeg(l, p, i), [])
  {
    if n > 0 {
      NewPartsFresh(l, p, n - 1);
      NewSegFresh(l, p, n - 1);
      FreshOneMore(l, p, NewParts(l, p, n - 1), Part(NewSeg(l, p, n - 1), []));
    }
  }

  // ---- What the owner's allocations do to such segments ----

  predicate Fits(p: HeapParams, i: nat, size: nat) {
    if i == BIG then 0 < size && size + 80 <= p.big else 0 < size <= BinSizeClass(i)
  }

  // The first page is the one that is asked first, and it serves.
  lemma FirstPageServes(l: Layout, p: HeapParams, i: nat, size: nat)
    requires PagesEach(l, p) && i < PART_COUNT && Fits(p, i, size)
    ensures var s := NewSeg(l, p, i);
      && SegmentSpec.Inv(s) && QueueOk(s, [], 0) && LivePtrs(s) == {} && AllUsable(s)
      && P.SizeOk(size) && size <= MaxObjectSize(s.cfg) && NextFit(s, size) == 0
  {
    var s := NewSeg(l, p, i);
    NewSegFresh(l, p, i);
    FreshPartOk(l, p, i, Part(s, []));
    NothingLive(s);
    InvUsable(s);
    PartBuildable(l, p, i);
    PartPlace(l, p, i);
    PartInBuffer(l, i);
    ProductMonotone(1, PartPages(p, i), PartConfig(p, i).pageSize);
    FreshPageServes(s.cfg, PartStart(l, i), size);
  }

  lemma FirstServed(l: Layout, p: HeapParams, i: nat, size: nat) returns (u: Seg, ptr: nat)
    requires PagesEach(l, p) && i < PART_COUNT && Fits(p, i, size)
    ensures SegmentSpec.Inv(NewSeg(l, p, i)) && QueueOk(NewSeg(l, p, i), [], 0)
    ensures AllUsable(NewSeg(l, p, i))
    ensures (u, ptr) == TryAllocate(NewSeg(l, p, i), size) == AllocateLocal(NewSeg(l, p, i), [], size)
    ensures SegmentSpec.Inv(u) && SamePages(NewSeg(l, p, i), u) && LivePtrs(u) == {ptr} && ptr != 0
    ensures PartStart(l, i) <= ptr < PartStart(l, i) + PartConfig(p, i).pageSize
  {
    var s := NewSeg(l, p, i);
    FirstPageServes(l, p, i, size);
    NewSegFresh(l, p, i);
    TryAllocateContract(s, size);
    NextFitIsComplete(s, size);
    u, ptr := TryAllocate(s, size).0, TryAllocate(s, size).1;
    assert u.slots[0].addr == PartStart(l, i);
    LiveIndex(u, 0, ptr);
  }

  lemma NothingLive(s: Seg)
    requires SegmentDrain.Held(s, []) == {}
    ensures LivePtrs(s) == {}
  {
    assert SegmentDrain.Held(s, []) == LivePtrs(s);
  }

  lemma EmptyRefuses(d: Seg, size: nat)
    requires SegmentSpec.Inv(d) && d.slots == []
    ensures AllUsable(d) && TryAllocate(d, size) == (d, 0)
  {
  }

  // Freeing the only object of a segment that keeps no spare page leaves no page at all.
  lemma OnlyPageGoes(u: Seg, ptr: nat)
    requires SegmentSpec.Inv(u) && |u.slots| == 1 && LivePtrs(u) == {ptr} && u.cfg.threshold == 0
    ensures SegmentSpec.Inv(Deallocate(u, ptr)) && Deallocate(u, ptr).slots == []
  {
    DeallocateContract(u, ptr);
    var k := LiveSomewhere(u, ptr);
    LiveIndex(u, k, ptr);
    assert GoodSlot(u, k);
    P.DeallocateContract(u.slots[k].page, ptr);
    P.UsedZero(P.Deallocate(u.slots[k].page, ptr));
    forall x | x in P.LivePtrs(u.slots[k].page) ensures x == ptr {
      assert IsLive(u, k, x);
      assert x in LivePtrs(u);
    }
    assert P.LivePtrs(P.Deallocate(u.slots[k].page, ptr)) == {};
  }

  // So does draining it, for a bounded any-size segment.
  lemma LastPageGoes(u: Seg, ptr: nat, size: nat)
    requires SegmentSpec.Inv(u) && |u.slots| == 1 && LivePtrs(u) == {ptr} && u.cfg.sizeClass == 0
    requires u.cfg.threshold == 0 && ptr != 0
    ensures QueueOk(u, [ptr], 0)
    ensures var (t, r) := AllocateLocal(u, [ptr], size); t.slots == [] && r == 0
  {
    assert QueueOk(u, [ptr], 0);
    OnlyPageGoes(u, ptr);
    assert [ptr][..0] == [];
    assert Drain(u, [ptr], 0, false) == Drain(Deallocate(u, ptr), [], 0, false);
    EmptyRefuses(Deallocate(u, ptr), size);
  }

  // ---- Runs ----

  ghost predicate AllIdle(st: State) {
    forall i :: 0 <= i < |st.parts| ==> st.parts[i].phase.Idle?
  }

  ghost predicate EndsIn(l: Layout, states: seq<State>, steps: seq<Step>, st: State) {
    Run(l, states, steps) && states[|steps|] == st
  }

  lemma Extend(l: Layout, states: seq<State>, steps: seq<Step>, st: State, step: Step)
      returns (states': seq<State>, steps': seq<Step>)
    requires EndsIn(l, states, steps, st) && Enabled(st, step)
    ensures Sound(l, st) && EndsIn(l, states', steps', Apply(l, st, step))
  {
    RunKeepsInv(l, states, steps, |steps|);
    states', steps' := states + [Apply(l, st, step)], steps + [step];
    forall i: nat ensures StepOk(l, states', steps', i) {
      assert StepOk(l, states, steps, i);
    }
  }

  // The owner of part k runs on alone to the end of its allocation.
  lemma {:induction false} OwnerRunsOn(l: Layout, states: seq<State>, steps: seq<Step>, st: State, k: nat)
      returns (states': seq<State>, steps': seq<Step>)
    requires EndsIn(l, states, steps, st) && |st.parts| == PART_COUNT && k < PART_COUNT && IdleBut(st, k)
    requires S.Inv(st.parts[k])
    ensures EndsIn(l, states', steps', st.(parts := st.parts[k := S.OwnerRun(st.parts[k])]))
    decreases |st.parts[k].queue|, S.Rank(st.parts[k].phase)
  {
    if st.parts[k].phase.Idle? {
      states', steps' := states, steps;
      assert st.parts[k := st.parts[k]] == st.parts;
    } else {
      var step := S.OwnerStep(st.parts[k]);
      S.StepKeepsInv(st.parts[k], step);
      var next := Apply(l, st, Owner(k, step));
      states', steps' := Extend(l, states, steps, st, Owner(k, step));
      states', steps' := OwnerRunsOn(l, states', steps', next, k);
      assert next.parts[k := S.OwnerRun(next.parts[k])] == st.parts[k := S.OwnerRun(st.parts[k])];
    }
  }

  // A whole allocation by the owner, with no client moving meanwhile.
  lemma OwnerAllocates(l: Layout, states: seq<State>, steps: seq<Step>, st: State, k: nat, size: nat)
      returns (states': seq<State>, steps': seq<Step>, st': State)
    requires EndsIn(l, states, steps, st) && |st.parts| == PART_COUNT && k < PART_COUNT && AllIdle(st)
    requires S.Inv(st.parts[k])
    ensures QueueOk(st.parts[k].seg, st.parts[k].queue, 0) && EndsIn(l, states', steps', st') && AllIdle(st')
    ensures var part := st.parts[k];
      var (t, ptr) := AllocateLocal(part.seg, part.queue, size);
      st' == st.(parts :=
        st.parts[k := S.State(t, [], if ptr == 0 then part.held else part.held + {ptr}, part.freeing, S.Idle)])
  {
    var part := st.parts[k];
    var begun := st.(parts := st.parts[k := S.Apply(part, S.Begin(size))]);
    states', steps' := Extend(l, states, steps, st, Owner(k, S.Begin(size)));
    S.StepKeepsInv(part, S.Begin(size));
    states', steps' := OwnerRunsOn(l, states', steps', begun, k);
    S.AloneIsAllocate(part, size);
    st' := begun.(parts := begun.parts[k := S.OwnerRun(begun.parts[k])]);
    assert begun.parts[k := S.OwnerRun(begun.parts[k])] == st.parts[k := S.OwnerRun(begun.parts[k])];
  }

  // A client frees a big object: two comparisons, a look at the head, and the push.
  lemma BigObjectFreed(l: Layout, states: seq<State>, steps: seq<Step>, st: State, ptr: nat)
      returns (states': seq<State>, steps': seq<Step>, st': State)
    requires EndsIn(l, states, steps, st) && Sound(l, st) && HeldIn(st, BIG, ptr) && ptr !in st.routes
    requires ptr !in st.lost
    ensures EndsIn(l, states', steps', st')
    ensures var part := st.parts[BIG];
      st' == st.(parts :=
        st.parts[BIG := S.State(part.seg, part.queue + [ptr], part.held - {ptr}, part.freeing - {ptr}, part.phase)])
  {
    HeadSplits(l, st, BIG, ptr);
    states', steps' := Extend(l, states, steps, st, AskLow(ptr));
    var st1 := Apply(l, st, AskLow(ptr));
    states', steps' := Extend(l, states', steps', st1, AskHigh(ptr));
    var st2 := Apply(l, st1, AskHigh(ptr));
    states', steps' := Extend(l, states', steps', st2, ReadHead(ptr));
    var st3 := Apply(l, st2, ReadHead(ptr));
    states', steps' := Extend(l, states', steps', st3, Push(ptr, BIG));
    st' := Apply(l, st3, Push(ptr, BIG));
    var part := st.parts[BIG];
    assert st3.routes == st.routes;
    assert part.freeing + {ptr} - {ptr} == part.freeing - {ptr};
    assert st'.parts[BIG] == S.State(part.seg, part.queue + [ptr], part.held - {ptr}, part.freeing - {ptr}, part.phase);
    assert st'.parts == st.parts[BIG := st'.parts[BIG]];
  }

  // A client frees a small object below the big page size when the big-object bin has no page: it is lost.
  lemma SmallObjectLost(l: Layout, states: seq<State>, steps: seq<Step>, st: State, i: nat, ptr: nat)
      returns (states': seq<State>, steps': seq<Step>, st': State)
    requires EndsIn(l, states, steps, st) && Sound(l, st) && BigGone(st) && ptr < l.big
    requires HeldIn(st, i, ptr) && ptr !in st.routes && ptr !in st.lost
    ensures EndsIn(l, states', steps', st') && st'.lost == st.lost + {ptr}
  {
    HeadSplits(l, st, i, ptr);
    states', steps' := Extend(l, states, steps, st, AskLow(ptr));
    var st1 := Apply(l, st, AskLow(ptr));
    states', steps' := Extend(l, states', steps', st1, AskHigh(ptr));
    var st2 := Apply(l, st1, AskHigh(ptr));
    states', steps' := Extend(l, states', steps', st2, ReadHead(ptr));
    st' := Apply(l, st2, ReadHead(ptr));
  }

  ghost predicate Bounded(l: Layout, p: HeapParams) {
    PagesEach(l, p) && l.local && IsPow2(l.small) && Divisible(p.big, p.small)
  }

  lemma NewHeap(l: Layout, p: HeapParams) returns (st: State)
    requires Bounded(l, p)
    ensures Initial(l, st) && AllIdle(st)
    ensures forall i :: 0 <= i < PART_COUNT ==> st.parts[i] == S.State(NewSeg(l, p, i), [], {}, {}, S.Idle)
  {
    assert PartPages(p, 0) >= 1;
    SmallPageFits(l, p);
    NewPartsFresh(l, p, PART_COUNT);
    FreshHeap(l, p, NewParts(l, p, PART_COUNT));
    var parts: seq<S.State>, i := [], 0;
    while i < PART_COUNT
      invariant i <= PART_COUNT && |parts| == i
      invariant forall j :: 0 <= j < i ==> parts[j] == S.State(NewSeg(l, p, j), [], {}, {}, S.Idle)
    {
      parts := parts + [S.State(NewSeg(l, p, i), [], {}, {}, S.Idle)];
      i := i + 1;
    }
    st := State(parts, map[], {});
    assert View(parts) == NewParts(l, p, PART_COUNT);
    forall j | 0 <= j < PART_COUNT ensures NothingOut(parts[j]) {
      NewSegFresh(l, p, j);
      FreshPartOk(l, p, j, Part(NewSeg(l, p, j), []));
      NothingLive(NewSeg(l, p, j));
    }
  }

  // All bins but the big-object one are as new, and no client is moving.
  ghost predicate BinsAsNew(l: Layout, p: HeapParams, st: State)
    requires Bounded(l, p)
  {
    && |st.parts| == PART_COUNT && AllIdle(st) && st.routes == map[] && st.lost == {}
    && forall i :: 0 <= i < BIG ==> st.parts[i] == S.State(NewSeg(l, p, i), [], {}, {}, S.Idle)
  }

  lemma BigObjectServed(l: Layout, p: HeapParams) returns (states: seq<State>, steps: seq<Step>, st: State, ptr: nat)
    requires Bounded(l, p)
    ensures EndsIn(l, states, steps, st) && Sound(l, st) && BinsAsNew(l, p, st) && ptr != 0
    ensures var u := st.parts[BIG].seg;
      && st.parts[BIG] == S.State(u, [], {ptr}, {}, S.Idle)
      && |u.slots| == 1 && LivePtrs(u) == {ptr} && u.cfg == PartConfig(p, BIG)
  {
    var st0 := NewHeap(l, p);
    states, steps := [st0], [];
    InitialInv(l, st0);
    assert PartInv(st0, BIG);
    var u;
    u, ptr := FirstServed(l, p, BIG, LARGEST_SIZE_CLASS + 1);
    NewSegFresh(l, p, BIG);
    states, steps, st := OwnerAllocates(l, states, steps, st0, BIG, LARGEST_SIZE_CLASS + 1);
    assert st0.parts[BIG].held + {ptr} == {ptr};
    RunKeepsInv(l, states, steps, |steps|);
  }

  // A big object is served, freed and drained; the big-object bin gives its only page back.
  lemma BigBinRunsDry(l: Layout, p: HeapParams) returns (states: seq<State>, steps: seq<Step>, st: State)
    requires Bounded(l, p) && p.bigThreshold == 0
    ensures EndsIn(l, states, steps, st) && Sound(l, st) && BinsAsNew(l, p, st) && BigGone(st)
  {
    var st1, ptr, st2;
    states, steps, st1, ptr := BigObjectServed(l, p);
    var u := st1.parts[BIG].seg;
    assert HeldIn(st1, BIG, ptr) && PartInv(st1, BIG);
    states, steps, st2 := BigObjectFreed(l, states, steps, st1, ptr);
    assert st1.parts[BIG].queue + [ptr] == [ptr] && st1.parts[BIG].held - {ptr} == {}
      && st1.parts[BIG].freeing - {ptr} == {};
    assert st2.parts[BIG] == S.State(u, [ptr], {}, {}, S.Idle);
    RunKeepsInv(l, states, steps, |steps|);
    assert PartInv(st2, BIG);
    LastPageGoes(u, ptr, LARGEST_SIZE_CLASS + 1);
    states, steps, st := OwnerAllocates(l, states, steps, st2, BIG, LARGEST_SIZE_CLASS + 1);
    RunKeepsInv(l, states, steps, |steps|);
  }

  // Where the first page lies below the big page size, a freed small object is then lost.
  lemma LowAddressIsLost(l: Layout, p: HeapParams) returns (states: seq<State>, steps: seq<Step>, ptr: nat)
    requires Bounded(l, p) && p.bigThreshold == 0 && l.buffer < l.big
    ensures Run(l, states, steps) && ptr in states[|steps|].lost
  {
    var st;
    states, steps, st := BigBinRunsDry(l, p);
    assert PartInv(st, 0);
    NextMultiple(l.buffer, l.big, l.small);
    var u;
    u, ptr := FirstServed(l, p, 0, MIN_SIZE_CLASS);
    var st1, st2;
    states, steps, st1 := OwnerAllocates(l, states, steps, st, 0, MIN_SIZE_CLASS);
    RunKeepsInv(l, states, steps, |steps|);
    assert st.parts[0].held + {ptr} == {ptr};
    assert st1.parts[0] == S.State(u, [], {ptr}, {}, S.Idle);
    assert HeldIn(st1, 0, ptr);
    states, steps, st2 := SmallObjectLost(l, states, steps, st1, 0, ptr);
  }

  ghost predicate LosesOne(l: Layout, states: seq<State>, steps: seq<Step>) {
    Run(l, states, steps) && states[|steps|].lost != {}
  }

  // A bounded heap, as creation accepts it with a power of two for its small pages, can lose a pointer exactly if
  // its big-object bin keeps no spare page and its buffer starts below the big page size.
  lemma LossExact(l: Layout, p: HeapParams)
    requires Bounded(l, p)
    ensures (exists states, steps :: LosesOne(l, states, steps)) <==> p.bigThreshold == 0 && l.buffer < l.big
  {
    if p.bigThreshold == 0 && l.buffer < l.big {
      var states, steps, ptr := LowAddressIsLost(l, p);
      assert LosesOne(l, states, steps);
    } else {
      forall states, steps ensures !LosesOne(l, states, steps) {
        if Run(l, states, steps) {
          NothingLost(l, states, steps, |steps|);
        }
      }
    }
  }

  lemma {:induction false} PagesOfOnes(counts: seq<nat>, n: nat)
    requires n <= |counts| && forall i :: 0 <= i < |counts| ==> counts[i] == 1
    ensures PagesBefore(counts, n) == n
  {
    if n > 0 {
      PagesOfOnes(counts, n - 1);
    }
  }

  // Such heaps: 4096-byte small pages, one per bin, from any page on, and big pages of 1 MB.
  lemma SuchAHeap(local: bool, buffer: nat) returns (l: Layout, p: HeapParams)
    requires Divisible(buffer, 4096) && 0 < buffer <= 0x1_0000_0000
    ensures PagesEach(l, p) && l.local == local && p.small == 4096 && p.coefficient == 1.0 && p.bigThreshold == 0
    ensures forall i :: 0 <= i < PART_COUNT ==> PartPages(p, i) == 1
    ensures local ==> Bounded(l, p)
    ensures l.buffer == buffer && l.big == 0x10_0000 && RequiredBuffer(l.counts, l.small, l.big) == 0x10_8000
  {
    var counts := seq(BIN_COUNT, _ => 1);
    l := Layout(local, 4096, 0x10_0000, counts, buffer, 0);
    p := HeapParams(4096, counts, 0, 0x10_0000, 0, 1.0, 65536, true);
    Pow2Values();
    Pow2IsPow2(12);
    DivisibleMod(buffer, 4096);
    DivisibleMultiple(256, 4096);
    PagesOfOnes(counts, |counts|);
  }

  // One whose buffer starts low enough.
  lemma LowHeap() returns (l: Layout, p: HeapParams)
    ensures Bounded(l, p) && p.bigThreshold == 0 && l.buffer < l.big
  {
    DivisibleMultiple(1, 4096);
    l, p := SuchAHeap(true, 4096);
  }
}
