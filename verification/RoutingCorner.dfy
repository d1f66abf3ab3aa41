// How a pointer of the central heap comes to be routed to a thread-local heap once addresses are reused.
module RoutingCorner {
  import opened Arith
  import opened Words
  import opened Pow2Log2
  import opened ArenaModel
  import opened SegmentSpec
  import opened SegmentTheorems
  import opened SegmentLookup
  import opened SegmentList
  import opened HeapSpec
  import opened HeapCorner
  import HP = HeapProtocol
  import HR = HeapRuns
  import R = Routing
  import P = LogicalPages
  import F = FixedPageSpec

  const LAST_BIN: nat := 7       // size class 2048: one object fills a 4096-byte page

  // ---- The central heap's last bin ----

  lemma LastClass()
    ensures BinSizeClass(LAST_BIN) == 2048
  {
    BinSizeClassPow2(LAST_BIN);
    Pow2Of8And11();
  }

  // One object fills the bin's only page.
  lemma CentralBinFull(c: Layout, p: HeapParams) returns (u: Seg, q: nat)
    requires PagesEach(c, p) && p.small == 4096 && PartPages(p, LAST_BIN) == 1
    ensures SegmentSpec.Inv(u) && AllUsable(u) && SamePages(NewSeg(c, p, LAST_BIN), u) && LivePtrs(u) == {q} && q != 0
    ensures TryAllocate(u, 2048) == (u, 0)
  {
    LastClass();
    NewSegFresh(c, p, LAST_BIN);
    u, q := FirstServed(c, p, LAST_BIN, 2048);
    InvUsable(u);
    var s := NewSeg(c, p, LAST_BIN);
    var lo := PartStart(c, LAST_BIN) + HEADER;
    var f := F.Fresh(lo, lo + 4032, 2048);
    F.FreshChunks(lo, lo + 4032, 2048);
    assert s.slots[0].page == P.FixedPage(f) && |f.free| == 1;
    assert u.slots[0].page == P.FixedPage(F.Allocate(f).0);
    NextFitIsComplete(u, 2048);
  }

  // For the next object the bin gets one more page, at the address the system answers with.
  lemma CentralBinGrows(u: Seg, q: nat, buffer: nat) returns (t: Seg, ptr: nat)
    requires SegmentSpec.Inv(u) && AllUsable(u) && |u.slots| == 1 && LivePtrs(u) == {q}
    requires TryAllocate(u, 2048) == (u, 0)
    requires u.cfg.sizeClass == 2048 && u.cfg.pageSize == 4096 && u.cfg.coefficient <= 1.0 && GoodBuffer(u, buffer, 1)
    requires PageAligned(u) && Divisible(buffer, 4096)
    ensures !DividesByZero(u, 2048) && (t, ptr) == AllocateUnbounded(u, 2048, buffer)
    ensures SegmentSpec.Inv(t) && t.cfg == u.cfg && PageAligned(t) && LivePtrs(t) == {q, ptr}
    ensures buffer + HEADER <= ptr < buffer + 4096 && Bytes(t) == Bytes(u) + Range(buffer, 4096)
  {
    OnePageWanted(u);
    ExtendContract(u, 2048, buffer);
    t, ptr := AllocateUnbounded(u, 2048, buffer).0, AllocateUnbounded(u, 2048, buffer).1;
    assert (t, ptr) == SegmentSpec.Extend(u, 2048, buffer);
    LiveIndex(t, 1, ptr);
    GrownBytes(u, buffer, 1);
    var g := Grow(u, buffer, 1);
    GrowContract(u, buffer, 1);
    assert SamePages(g, t);
    SameBytes(g, t);
    forall i | 0 <= i < |t.slots| ensures Divisible(t.slots[i].addr, 4096) {
      if i == 0 {
        assert t.slots[0] == u.slots[0];
      }
    }
  }

  lemma OnePageWanted(u: Seg)
    requires SegmentSpec.Inv(u) && u.cfg.sizeClass == 2048 && u.cfg.pageSize == 4096 && u.cfg.coefficient <= 1.0
    requires |u.slots| == 1
    ensures Countable(u.cfg, 2048) && DesiredPages(u.cfg, |u.slots|, 2048) == 1
  {
    MinimumIsOne(u.cfg, 2048);
  }

  // ---- The central heap ----

  // The central heap after creation and two allocations from the last bin, the second of which made the bin
  // grow into the page at `buffer`.
  lemma CentralHeapGrows(c: Layout, p: HeapParams, buffer: nat) returns (ps: seq<Part>, ptr: nat)
    requires PagesEach(c, p) && PartPages(p, LAST_BIN) == 1 && !c.local && p.small == 4096 && p.coefficient <= 1.0
    requires 0 < buffer && Divisible(buffer, 4096) && buffer + 4096 <= WORD_LIMIT
    requires Range(buffer, 4096) !! Range(c.buffer, RequiredBuffer(c.counts, c.small, c.big))
    ensures HeapSpec.Inv(c, ps) && HeldBy(ps, LAST_BIN, ptr) && buffer + HEADER <= ptr < buffer + 4096
    ensures HeapBytes(ps) == Range(c.buffer, RequiredBuffer(c.counts, c.small, c.big)) + Range(buffer, 4096)
  {
    NewPartsFresh(c, p, PART_COUNT);
    var qs := NewParts(c, p, PART_COUNT);
    FreshHeap(c, p, qs);
    LastClass();
    NewSegFresh(c, p, LAST_BIN);
    assert PartAt(c, qs, LAST_BIN);
    var u, q := CentralBinFull(c, p);
    SameBytes(qs[LAST_BIN].seg, u);
    OneAndOthers(qs, LAST_BIN);
    PageOutside(c, p, qs, u, buffer);
    var t;
    t, ptr := CentralBinGrows(u, q, buffer);
    var owned := HeapBytes(qs);
    var more := owned + Range(buffer, 4096);
    assert more - Bytes(t) == owned - Bytes(qs[LAST_BIN].seg);
    ReplacePart(c, qs, LAST_BIN, Part(t, []), owned, more);
    ps := qs[LAST_BIN := Part(t, [])];
    OneAndOthers(ps, LAST_BIN);
  }

  lemma PageOutside(c: Layout, p: HeapParams, qs: seq<Part>, u: Seg, buffer: nat)
    requires PagesEach(c, p) && |qs| == PART_COUNT
    requires HeapBytes(qs) == Range(c.buffer, RequiredBuffer(c.counts, c.small, c.big))
    requires Range(buffer, 4096) !! HeapBytes(qs) && p.small == 4096
    requires SegmentSpec.Inv(u) && |u.slots| == 1 && u.cfg.pageSize == 4096 && Bytes(u) <= HeapBytes(qs)
    requires 0 < buffer && Divisible(buffer, 4096) && buffer + 4096 <= WORD_LIMIT
    ensures GoodBuffer(u, buffer, 1)
  {
    DivisibleMod(buffer, 4096);
    PageBytes(u, 0);
    RangesApart(buffer, 4096, u.slots[0].addr, 4096);
    assert BufferApart(u, buffer, 1, 0);
  }

  // ---- A bounded heap that gave a page back, and the central heap next to it ----

  // After its big-object bin ran dry, the heap holds nothing, and no page of it is in that bin's place.
  lemma DryHeap(l: Layout, p: HeapParams, st: HP.State)
    requires HeapCorner.Bounded(l, p) && HP.Sound(l, st) && BinsAsNew(l, p, st) && HP.BigGone(st)
    ensures HeapHeld(HP.View(st.parts)) == {} && HeapBytes(HP.View(st.parts)) !! Home(l, BIG)
    ensures HeapBytes(HP.View(st.parts)) <= Range(l.buffer, RequiredBuffer(l.counts, l.small, l.big))
  {
    var ps := HP.View(st.parts);
    forall x | x in HeapBytes(ps)
      ensures x !in Home(l, BIG) && x in Range(l.buffer, RequiredBuffer(l.counts, l.small, l.big))
    {
      BoundedHeap(l, ps, x);
      HeldSomewhere(ps, x);
      var i: nat :| ByteOf(ps, i, x);
      assert PartAt(l, ps, i);
      assert Bytes(st.parts[BIG].seg) == {};
      if i < BIG {
        PartsInOrder(l, i, BIG);
      }
    }
    forall x ensures x !in HeapHeld(ps) {
      HeldSomewhere(ps, x);
      forall i: nat ensures !HeldBy(ps, i, x) {
        if i < BIG {
          NewSegFresh(l, p, i);
          FreshPartOk(l, p, i, Part(NewSeg(l, p, i), []));
        }
      }
    }
  }

  lemma BigPlace(l: Layout, p: HeapParams)
    requires HeapCorner.Bounded(l, p) && p.small == 4096
    ensures var buffer := PartStart(l, BIG);
      && 0 < buffer && Divisible(buffer, 4096) && buffer + 4096 <= WORD_LIMIT && Range(buffer, 4096) <= Home(l, BIG)
      && Home(l, BIG) <= Range(l.buffer, RequiredBuffer(l.counts, l.small, l.big))
  {
    PartAligned(l, p, BIG);
    PartInBuffer(l, BIG);
    assert l.big >= 4096;
  }

  // Run the bounded heap until its big-object bin gives its page back, and let the system map that page again
  // for the central heap: the object that the central heap puts there is routed to the bounded heap.
  lemma ReuseMisroutes(l: Layout, lp: HeapParams, c: Layout, cp: HeapParams)
      returns (states: seq<HP.State>, steps: seq<HP.Step>, ps: seq<Part>, ptr: nat)
    requires HeapCorner.Bounded(l, lp) && lp.bigThreshold == 0 && lp.small == 4096
    requires PagesEach(c, cp) && PartPages(cp, LAST_BIN) == 1 && !c.local && cp.small == 4096 && cp.coefficient <= 1.0
    requires Range(l.buffer, RequiredBuffer(l.counts, l.small, l.big))
      !! Range(c.buffer, RequiredBuffer(c.counts, c.small, c.big))
    ensures HR.Run(l, states, steps) && |states[|steps|].parts| == PART_COUNT && HeapSpec.Inv(c, ps)
    ensures var vs := [R.HeapView(c.buffer, RequiredBuffer(c.counts, c.small, c.big), ps),
                       R.HeapView(l.buffer, RequiredBuffer(l.counts, l.small, l.big), HP.View(states[|steps|].parts))];
      var owned := vs[0].bytes + vs[1].bytes;
      && R.Inv(vs, owned, owned + Range(vs[1].start, vs[1].len), true)
      && R.HolderAt(vs, 0, ptr) && R.Idle(vs, 1) && R.Route(vs, 1, ptr, 1) == 1
  {
    var st;
    states, steps, st := BigBinRunsDry(l, lp);
    DryHeap(l, lp, st);
    BigPlace(l, lp);
    ps, ptr := CentralHeapGrows(c, cp, PartStart(l, BIG));
    TwoHeaps(c, ps, l, HP.View(st.parts), ptr);
  }

  lemma TwoHeaps(c: Layout, ps: seq<Part>, l: Layout, qs: seq<Part>, ptr: nat)
    requires HeapSpec.Inv(c, ps) && HeapSpec.Inv(l, qs) && HeldBy(ps, LAST_BIN, ptr)
    requires HeapBytes(ps) !! HeapBytes(qs)
    requires HeapBytes(qs) <= Range(l.buffer, RequiredBuffer(l.counts, l.small, l.big))
    requires ptr in Range(l.buffer, RequiredBuffer(l.counts, l.small, l.big))
    ensures var vs := [R.HeapView(c.buffer, RequiredBuffer(c.counts, c.small, c.big), ps),
                       R.HeapView(l.buffer, RequiredBuffer(l.counts, l.small, l.big), qs)];
      var owned := vs[0].bytes + vs[1].bytes;
      && R.Inv(vs, owned, owned + Range(vs[1].start, vs[1].len), true)
      && R.HolderAt(vs, 0, ptr) && R.Idle(vs, 1) && R.Route(vs, 1, ptr, 1) == 1
  {
    var vs := [R.HeapView(c.buffer, RequiredBuffer(c.counts, c.small, c.big), ps),
               R.HeapView(l.buffer, RequiredBuffer(l.counts, l.small, l.big), qs)];
    R.HeapViewOk(c, vs[0].start, vs[0].len, ps);
    R.HeapViewOk(l, vs[1].start, vs[1].len, qs);
    HeldSomewhere(ps, ptr);
    assert R.Claims(vs, 1, ptr);
  }

  // ---- A local heap whose buffer the system refused ----

  // The central heap after creation and one small allocation.
  lemma CentralHeapServes(c: Layout, p: HeapParams) returns (ps: seq<Part>, ptr: nat)
    requires PagesEach(c, p) && !c.local
    ensures HeapSpec.Inv(c, ps) && HeldBy(ps, 0, ptr) && ptr < c.buffer + c.small
  {
    NewPartsFresh(c, p, PART_COUNT);
    var qs := NewParts(c, p, PART_COUNT);
    FreshHeap(c, p, qs);
    NewSegFresh(c, p, 0);
    assert PartAt(c, qs, 0);
    var u;
    u, ptr := FirstServed(c, p, 0, MIN_SIZE_CLASS);
    SameBytes(qs[0].seg, u);
    AlignedTryAllocate(qs[0].seg, MIN_SIZE_CLASS);
    OneAndOthers(qs, 0);
    ReplacePart(c, qs, 0, Part(u, []), HeapBytes(qs), HeapBytes(qs));
    ps := qs[0 := Part(u, [])];
  }

  // Such a heap claims all addresses below its buffer length. If the central heap lies that low, its pointers
  // are routed to the dead heap, with or without reuse of addresses.
  lemma RefusedBufferMisroutes(c: Layout, cp: HeapParams, len: nat) returns (ps: seq<Part>, ptr: nat)
    requires PagesEach(c, cp) && !c.local && c.buffer + c.small <= len
    ensures HeapSpec.Inv(c, ps)
    ensures var vs :=
      [R.HeapView(c.buffer, RequiredBuffer(c.counts, c.small, c.big), ps), R.View(0, len, {}, {}, iset{})];
      && R.Inv(vs, vs[0].bytes, vs[0].bytes, false) && R.Idle(vs, 1) && R.HolderAt(vs, 0, ptr)
      && R.LowClaim(vs, 1, ptr) && R.Route(vs, 1, ptr, 1) == 1
  {
    ps, ptr := CentralHeapServes(c, cp);
    var v := R.HeapView(c.buffer, RequiredBuffer(c.counts, c.small, c.big), ps);
    R.HeapViewOk(c, v.start, v.len, ps);
    R.OneHeap([v], v.bytes, v.bytes, false);
    R.HeapAdded([v], R.View(0, len, {}, {}, iset{}), v.bytes, v.bytes, v.bytes, v.bytes, false, 0);
    R.MoreActive([v, R.View(0, len, {}, {}, iset{})], 0);
    HeldSomewhere(ps, ptr);
    assert [v] + [R.View(0, len, {}, {}, iset{})] == [v, R.View(0, len, {}, {}, iset{})];
    assert R.Claims([v, R.View(0, len, {}, {}, iset{})], 1, ptr);
  }

  // Two heaps to which this applies.
  lemma SuchHeaps() returns (l: Layout, lp: HeapParams, c: Layout, cp: HeapParams)
    ensures HeapCorner.Bounded(l, lp) && lp.bigThreshold == 0 && lp.small == 4096
    ensures PagesEach(c, cp) && PartPages(cp, LAST_BIN) == 1 && !c.local && cp.small == 4096 && cp.coefficient <= 1.0
    ensures Range(l.buffer, RequiredBuffer(l.counts, l.small, l.big))
      !! Range(c.buffer, RequiredBuffer(c.counts, c.small, c.big))
  {
    DivisibleMultiple(0x1_0000, 4096);
    DivisibleMultiple(0x2_0000, 4096);
    l, lp := SuchAHeap(true, 0x1000_0000);
    c, cp := SuchAHeap(false, 0x2000_0000);
  }
}
