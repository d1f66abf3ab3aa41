// The bytes behind a segment's live pointers: what a request gets is its own until it is freed.
module SegmentRoom {
  import opened SegmentSpec
  import opened SegmentTheorems
  import opened SegmentList
  import opened SegmentDrain
  import P = LogicalPages
  import A = AnySizeSpec
  import T = AnySizeTheorems

  ghost predicate ReservedIn(s: Seg, i: nat, ptr: nat, n: nat) {
    i < |s.slots| && P.Reserved(s.slots[i].page, ptr, n)
  }

  // The pointer is live in the segment, and n bytes from it on are its own.
  ghost predicate Reserved(s: Seg, ptr: nat, n: nat) {
    exists i: nat :: ReservedIn(s, i, ptr, n)
  }

  // Whatever was reserved in s, except for what was freed, is still reserved in t.
  ghost predicate Keeps(s: Seg, t: Seg, freed: set<nat>) {
    forall x: nat, n: nat :: Reserved(s, x, n) && x !in freed ==> Reserved(t, x, n)
  }

  // The size class of a segment keeps its pointers aligned.
  predicate ClassAligned(s: Seg) {
    s.cfg.sizeClass % 16 == 0
  }

  // The room a request gets.
  function Room(s: Seg, size: nat): nat {
    if s.cfg.sizeClass != 0 then s.cfg.sizeClass else size
  }

  // Reserved bytes lie in one page, behind that page's header, and start aligned.
  lemma ReservedInside(s: Seg, ptr: nat, n: nat) returns (i: nat)
    requires Inv(s) && Reserved(s, ptr, n)
    ensures i < |s.slots| && s.slots[i].addr + HEADER <= ptr && ptr + n <= s.slots[i].addr + s.cfg.pageSize
    ensures ReservedIn(s, i, ptr, n) && ptr in LivePtrs(s) && (ClassAligned(s) ==> ptr % 16 == 0)
  {
    i :| ReservedIn(s, i, ptr, n);
    assert GoodSlot(s, i);
    P.ReservedInside(s.slots[i].page, ptr, n);
    assert IsLive(s, i, ptr);
    PageMemoryAligned(s.slots[i].addr, s.cfg.pageSize);
  }

  // They overlap no other pointer's bytes and no page's header.
  lemma ReservedApart(s: Seg, ptr: nat, n: nat, ptr': nat, n': nat)
    requires Inv(s) && Reserved(s, ptr, n) && Reserved(s, ptr', n') && ptr != ptr'
    ensures ptr + n <= ptr' || ptr' + n' <= ptr
  {
    var i := ReservedInside(s, ptr, n);
    var j := ReservedInside(s, ptr', n');
    if i == j {
      assert GoodSlot(s, i);
      P.ReservedApart(s.slots[i].page, ptr, n, ptr', n');
    } else {
      assert SlotsApart(s, i, j) && SlotsApart(s, j, i);
    }
  }

  lemma ReservedOffHeaders(s: Seg, ptr: nat, n: nat, j: nat)
    requires Inv(s) && Reserved(s, ptr, n) && j < |s.slots|
    ensures ptr + n <= s.slots[j].addr || s.slots[j].addr + HEADER <= ptr
  {
    var i := ReservedInside(s, ptr, n);
    if i != j {
      assert SlotsApart(s, i, j) && SlotsApart(s, j, i);
    }
  }

  lemma ReservedBytes(s: Seg, ptr: nat, n: nat, x: nat)
    requires Inv(s) && Reserved(s, ptr, n) && ptr <= x < ptr + n
    ensures x in Bytes(s)
  {
    var i := ReservedInside(s, ptr, n);
    assert PageByte(s, i, x);
    BytesMember(s, x);
  }

  // ---- Every operation keeps what it does not free ----

  lemma ServeReserves(s: Seg, k: nat, size: nat)
    requires Inv(s) && k < |s.slots| && AllUsable(s) && P.SizeOk(size)
    requires P.Allocate(s.slots[k].page, size).1 != 0
    ensures var (t, ptr) := ServeFrom(s, k, size);
      Reserved(t, ptr, Room(s, size)) && Keeps(s, t, {})
  {
    var (t, ptr) := ServeFrom(s, k, size);
    assert GoodSlot(s, k);
    P.AllocateReserves(s.slots[k].page, size);
    P.AllocateContract(s.slots[k].page, size);
    assert ReservedIn(t, k, ptr, Room(s, size)) by {
      if s.cfg.sizeClass == 0 {
        LessRoom(t.slots[k].page, ptr, P.Room(s.slots[k].page, size), size);
      }
    }
    forall x: nat, n: nat | Reserved(s, x, n) ensures Reserved(t, x, n) {
      var i: nat :| ReservedIn(s, i, x, n);
      assert ReservedIn(t, i, x, n);
    }
  }

  lemma LessRoom(page: P.PageState, ptr: nat, n: nat, m: nat)
    requires P.Reserved(page, ptr, n) && m <= n
    ensures P.Reserved(page, ptr, m)
  {
  }

  lemma LessReserved(s: Seg, ptr: nat, n: nat, m: nat)
    requires Reserved(s, ptr, n) && m <= n
    ensures Reserved(s, ptr, m)
  {
    var i: nat :| ReservedIn(s, i, ptr, n);
    LessRoom(s.slots[i].page, ptr, n, m);
    assert ReservedIn(s, i, ptr, m);
  }

  lemma TryAllocateReserves(s: Seg, size: nat)
    requires Inv(s) && AllUsable(s)
    ensures var (t, ptr) := TryAllocate(s, size);
      (ptr != 0 ==> Reserved(t, ptr, Room(s, size))) && Keeps(s, t, {})
  {
    if size <= MaxObjectSize(s.cfg) && NextFit(s, size) < |s.slots| {
      ServeReserves(s, NextFit(s, size), size);
    }
  }

  lemma GrowReserves(s: Seg, buffer: nat, n: nat)
    requires ValidConfig(s.cfg)
    ensures Keeps(s, Grow(s, buffer, n), {})
  {
    var t := Grow(s, buffer, n);
    forall x: nat, m: nat | Reserved(s, x, m) ensures Reserved(t, x, m) {
      var i: nat :| ReservedIn(s, i, x, m);
      assert ReservedIn(t, i, x, m);
    }
  }

  // Search and growth together.
  lemma UnboundedReserves(s: Seg, size: nat, buffer: nat)
    requires Inv(s) && AllUsable(s) && !DividesByZero(s, size)
    requires buffer != 0 ==> Countable(s.cfg, size) && GoodBuffer(s, buffer, DesiredPages(s.cfg, |s.slots|, size))
    ensures var (t, ptr) := AllocateUnbounded(s, size, buffer);
      (ptr != 0 ==> Reserved(t, ptr, Room(s, size))) && Keeps(s, t, {})
  {
    TryAllocateReserves(s, size);
    TryAllocateContract(s, size);
    if TryAllocate(s, size).1 == 0 && size <= MaxObjectSize(s.cfg) && buffer != 0 {
      var n := DesiredPages(s.cfg, |s.slots|, size);
      var g := Grow(s, buffer, n);
      DesiredCount(s.cfg, |s.slots|, size);
      GrowContract(s, buffer, n);
      GrowReserves(s, buffer, n);
      InvUsable(g);
      NewPageServes(s.cfg, buffer, n, size);
      if P.Allocate(g.slots[|s.slots|].page, size).1 != 0 {
        ServeReserves(g, |s.slots|, size);
      }
    }
  }

  lemma RemoveReserves(s: Seg, k: nat)
    requires Inv(s) && k < |s.slots| && P.LivePtrs(s.slots[k].page) == {}
    ensures Keeps(s, RemovePage(s, k), {})
  {
    var t := RemovePage(s, k);
    forall x: nat, n: nat | Reserved(s, x, n) ensures Reserved(t, x, n) {
      var i: nat :| ReservedIn(s, i, x, n);
      assert GoodSlot(s, i);
      P.ReservedInside(s.slots[i].page, x, n);
      assert ReservedIn(t, if i < k then i else i - 1, x, n);
    }
  }

  lemma FreeReserves(s: Seg, k: nat, ptr: nat)
    requires Inv(s) && IsLive(s, k, ptr)
    ensures Keeps(s, WithPage(s, k, P.Deallocate(s.slots[k].page, ptr)), {ptr})
  {
    assert GoodSlot(s, k);
    P.DeallocateReserves(s.slots[k].page, ptr);
    var w := WithPage(s, k, P.Deallocate(s.slots[k].page, ptr));
    forall x: nat, n: nat | Reserved(s, x, n) && x !in {ptr} ensures Reserved(w, x, n) {
      var i: nat :| ReservedIn(s, i, x, n);
      assert ReservedIn(w, i, x, n);
    }
  }

  lemma SettleReserves(w: Seg, k: nat)
    requires Inv(w) && k < |w.slots|
    ensures Keeps(w, Settle(w, k), {})
  {
    var t := Settle(w, k);
    assert GoodSlot(w, k);
    P.UsedZero(w.slots[k].page);
    if P.Used(w.slots[k].page) == 0 {
      if |w.slots| > w.cfg.threshold {
        RemoveReserves(w, k);
      } else {
        forall x: nat, n: nat | Reserved(w, x, n) ensures Reserved(t, x, n) {
          var i: nat :| ReservedIn(w, i, x, n);
          assert ReservedIn(t, i, x, n);
        }
      }
    }
  }

  lemma DeallocateReserves(s: Seg, ptr: nat)
    requires Inv(s) && ptr in LivePtrs(s)
    ensures Keeps(s, Deallocate(s, ptr), {ptr})
  {
    var k := LiveSomewhere(s, ptr);
    LiveIndex(s, k, ptr);
    assert GoodSlot(s, k);
    P.DeallocateContract(s.slots[k].page, ptr);
    var w := WithPage(s, k, P.Deallocate(s.slots[k].page, ptr));
    ReplacePage(s, w, k);
    FreeReserves(s, k, ptr);
    SettleReserves(w, k);
  }

  lemma {:induction false} DrainReserves(s: Seg, queue: seq<nat>, kept: nat, keepFirst: bool)
    requires Inv(s) && QueueOk(s, queue, kept)
    ensures var (t, ret) := Drain(s, queue, kept, keepFirst);
      Keeps(s, t, (set q | q in queue) - {ret})
    decreases |queue|
  {
    if queue != [] {
      var n := |queue| - 1;
      var rest := queue[..n];
      assert queue == rest + [queue[n]];
      DrainContract(s, queue, kept, keepFirst);
      if keepFirst && kept == 0 {
        PopKeeps(s, queue);
        DrainReserves(s, rest, queue[n], keepFirst);
        DrainContract(s, rest, queue[n], keepFirst);
      } else {
        PopFrees(s, queue, kept);
        DeallocateReserves(s, queue[n]);
        DrainReserves(Deallocate(s, queue[n]), rest, kept, keepFirst);
      }
    }
  }

  // The owner's allocation: the room asked for, even when the pointer comes straight from the queue, and
  // every pointer held by a client keeps its own.
  lemma LocalReserves(s: Seg, queue: seq<nat>, size: nat)
    requires Inv(s) && QueueOk(s, queue, 0)
    ensures var (t, ptr) := AllocateLocal(s, queue, size);
      (ptr != 0 ==> Reserved(t, ptr, Room(s, size))) && Keeps(s, t, set q | q in queue)
  {
    var keepFirst := s.cfg.sizeClass != 0;
    var (t, kept) := Drain(s, queue, 0, keepFirst);
    DrainContract(s, queue, 0, keepFirst);
    DrainReserves(s, queue, 0, keepFirst);
    InvUsable(t);
    if kept != 0 {
      KeptIsReserved(t, kept);
    } else {
      TryAllocateReserves(t, size);
      var u := TryAllocate(t, size).0;
      forall x: nat, n: nat | Reserved(s, x, n) && x !in (set q | q in queue) ensures Reserved(u, x, n) {
        assert Reserved(t, x, n);
      }
    }
  }

  lemma KeptIsReserved(t: Seg, ptr: nat)
    requires Inv(t) && ptr in LivePtrs(t) && t.cfg.sizeClass != 0
    ensures Reserved(t, ptr, t.cfg.sizeClass)
  {
    var k := LiveSomewhere(t, ptr);
    assert GoodSlot(t, k);
    P.LiveIsReserved(t.slots[k].page, ptr);
    assert ReservedIn(t, k, ptr, t.cfg.sizeClass);
  }

  // ---- get_usable_size ----

  function UsableSize(s: Seg, ptr: nat): int {
    if s.cfg.sizeClass != 0 then s.cfg.sizeClass
    else
      var k := IndexAt(s.slots, s.cfg.pageSize, ptr, 0);
      if k == |s.slots| then 0 else P.UsableSize(s.slots[k].page, ptr)
  }

  // For a size class the answer is room the client has. For any-size pages it is at least that room, and
  // more than it exactly when the block had to be padded.
  lemma UsableSizeContract(s: Seg, ptr: nat) returns (k: nat)
    requires Inv(s) && ptr in LivePtrs(s)
    ensures IsLive(s, k, ptr) && UsableSize(s, ptr) >= 0
    ensures forall n: nat :: Reserved(s, ptr, n) ==> n <= UsableSize(s, ptr)
    ensures s.cfg.sizeClass == 0 ==> s.slots[k].page.AnySizePage?
    ensures Reserved(s, ptr, UsableSize(s, ptr)) <==> s.cfg.sizeClass != 0 || A.BaseOf(s.slots[k].page.a, ptr) % 16 == 0
  {
    k := LiveSomewhere(s, ptr);
    LiveIndex(s, k, ptr);
    assert GoodSlot(s, k);
    var page := s.slots[k].page;
    P.LiveIsReserved(page, ptr);
    if s.cfg.sizeClass == 0 {
      T.UsableSizeExact(page.a, ptr);
    }
    forall n: nat ensures Reserved(s, ptr, n) <==> P.Reserved(page, ptr, n) {
      if Reserved(s, ptr, n) {
        var i := ReservedInside(s, ptr, n);
        LiveIndex(s, i, ptr);
      }
      if P.Reserved(page, ptr, n) {
        assert ReservedIn(s, k, ptr, n);
      }
    }
  }
}
