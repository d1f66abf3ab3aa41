// The two ways a segment finds the page of a pointer: by address mask and by linear search.
module SegmentLookup {
  import opened Arith
  import opened Bits
  import opened SegmentSpec

  // First page from i on that starts at address a, |slots| if there is none.
  function AddressIndex(slots: seq<Slot>, a: nat, i: nat): (r: nat)
    requires i <= |slots|
    ensures i <= r <= |slots|
    ensures r < |slots| ==> slots[r].addr == a
    ensures forall j :: i <= j < r ==> slots[j].addr != a
    decreases |slots| - i
  {
    if i == |slots| || slots[i].addr == a then i else AddressIndex(slots, a, i + 1)
  }

  // deallocate_from_aligned_logical_page: the page is taken to start at the masked address.
  function DeallocateMasked(s: Seg, ptr: nat): Seg
    requires ValidConfig(s.cfg)
  {
    var k := AddressIndex(s.slots, MaskedPage(ptr, s.cfg.pageSize), 0);
    if k == |s.slots| then s else DeallocateAt(s, k, ptr)
  }

  // Every page starts at a multiple of the page size.
  ghost predicate PageAligned(s: Seg)
    requires ValidConfig(s.cfg)
  {
    forall i :: 0 <= i < |s.slots| ==> Divisible(s.slots[i].addr, s.cfg.pageSize)
  }

  lemma {:induction false} FreshAligned(c: Config, buffer: nat, n: nat)
    requires ValidConfig(c) && Divisible(buffer, c.pageSize)
    ensures |FreshSlots(c, buffer, n)| == n
    ensures forall i :: 0 <= i < n ==> Divisible(FreshSlots(c, buffer, n)[i].addr, c.pageSize)
    decreases n
  {
    if n > 0 {
      assert Divisible(buffer + c.pageSize, c.pageSize);
      FreshAligned(c, buffer + c.pageSize, n - 1);
    }
  }

  lemma FloorOfPage(addr: nat, ptr: nat, pageSize: nat)
    requires pageSize > 0 && Divisible(addr, pageSize) && addr <= ptr < addr + pageSize
    ensures ptr - ptr % pageSize == addr
  {
    DivisibleMod(addr, pageSize);
    QuotientIs(ptr, addr / pageSize, ptr - addr, pageSize);
  }

  // Pages stay aligned as long as the list only loses pages.
  lemma AlignedDeallocate(s: Seg, ptr: nat)
    requires ValidConfig(s.cfg) && PageAligned(s)
    ensures Deallocate(s, ptr).cfg == s.cfg && PageAligned(Deallocate(s, ptr))
  {
  }

  lemma GrowAligned(s: Seg, buffer: nat, n: nat)
    requires ValidConfig(s.cfg) && PageAligned(s) && Divisible(buffer, s.cfg.pageSize)
    ensures PageAligned(Grow(s, buffer, n))
  {
    FreshAligned(s.cfg, buffer, n);
  }

  // They stay aligned over growth too if the arena answers with aligned memory.
  lemma AlignedUnbounded(s: Seg, size: nat, buffer: nat)
    requires Inv(s) && AllUsable(s) && !DividesByZero(s, size) && PageAligned(s)
    requires buffer != 0 ==> Countable(s.cfg, size) && Divisible(buffer, s.cfg.pageSize)
    ensures var t := AllocateUnbounded(s, size, buffer).0; t.cfg == s.cfg && PageAligned(t)
  {
    AlignedTryAllocate(s, size);
    if buffer != 0 {
      GrowAligned(s, buffer, DesiredPages(s.cfg, |s.slots|, size));
    }
  }

  lemma AlignedTryAllocate(s: Seg, size: nat)
    requires ValidConfig(s.cfg) && AllUsable(s) && PageAligned(s)
    ensures TryAllocate(s, size).0.cfg == s.cfg && PageAligned(TryAllocate(s, size).0)
  {
  }

  // For a pointer inside the segment both look-ups find the same page.
  lemma LookupsAgree(s: Seg, ptr: nat)
    requires Inv(s) && PageAligned(s) && IsPow2(s.cfg.pageSize)
    requires IndexAt(s.slots, s.cfg.pageSize, ptr, 0) < |s.slots|
    ensures var k := IndexAt(s.slots, s.cfg.pageSize, ptr, 0);
      && MaskedPage(ptr, s.cfg.pageSize) == s.slots[k].addr
      && AddressIndex(s.slots, MaskedPage(ptr, s.cfg.pageSize), 0) == k
  {
    var k := IndexAt(s.slots, s.cfg.pageSize, ptr, 0);
    assert GoodSlot(s, k);
    MaskIsFloor(s.cfg.pageSize);
    FloorOfPage(s.slots[k].addr, ptr, s.cfg.pageSize);
    var j := AddressIndex(s.slots, s.slots[k].addr, 0);
    assert SlotsApart(s, j, k) && SlotsApart(s, k, j);
  }

  // So the two deallocation routines leave the same segment behind.
  lemma RoutinesAgree(s: Seg, ptr: nat)
    requires Inv(s) && PageAligned(s) && IsPow2(s.cfg.pageSize)
    requires IndexAt(s.slots, s.cfg.pageSize, ptr, 0) < |s.slots|
    ensures DeallocateMasked(s, ptr) == Deallocate(s, ptr)
  {
    LookupsAgree(s, ptr);
  }

  // Without a power-of-two page size the mask leaves the page: a 12288-byte page at its own size.
  lemma MaskNeedsPow2()
    ensures MaskedPage(12288, 12288) != 12288 && !IsPow2(12288)
  {
    Pow2Values();
    assert !IsPow2(3);
    assert !IsPow2(12) && !IsPow2(48) && !IsPow2(192) && !IsPow2(768) && !IsPow2(3072);
    if MaskedPage(12288, 12288) == 12288 {
      MaskLowestBit(12288, 64);
    }
  }
}
