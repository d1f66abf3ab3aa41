// What a segment promises about its pages and its live pointers.
module SegmentTheorems {
  import opened Arith
  import opened Words
  import opened SegmentSpec
  import P = LogicalPages

  lemma InvUsable(s: Seg)
    requires Inv(s)
    ensures AllUsable(s)
  {
    forall j | 0 <= j < |s.slots| ensures P.Usable(s.slots[j].page) {
      assert GoodSlot(s, j);
    }
  }

  // A live pointer of page i lies in page i and in no other page, so the search finds page i.
  lemma LiveIndex(s: Seg, i: nat, ptr: nat)
    requires Inv(s) && IsLive(s, i, ptr)
    ensures InPage(s.slots[i], s.cfg.pageSize, ptr) && s.slots[i].addr + HEADER <= ptr
    ensures IndexAt(s.slots, s.cfg.pageSize, ptr, 0) == i
  {
    assert GoodSlot(s, i);
    P.LiveInside(s.slots[i].page, ptr);
    var k := IndexAt(s.slots, s.cfg.pageSize, ptr, 0);
    assert SlotsApart(s, i, k) && SlotsApart(s, k, i);
  }

  lemma LiveSomewhere(s: Seg, ptr: nat) returns (i: nat)
    requires ptr in LivePtrs(s)
    ensures IsLive(s, i, ptr)
  {
    i :| 0 <= i < |s.slots| && ptr in P.LivePtrs(s.slots[i].page);
  }

  // Addresses found by the search: a page is found at its own address.
  lemma IndexOfPage(s: Seg, i: nat)
    requires (forall j: nat, k: nat :: SlotsApart(s, j, k)) && 0 < s.cfg.pageSize && i < |s.slots|
    ensures IndexAt(s.slots, s.cfg.pageSize, s.slots[i].addr, 0) == i
  {
    var k := IndexAt(s.slots, s.cfg.pageSize, s.slots[i].addr, 0);
    assert SlotsApart(s, i, k) && SlotsApart(s, k, i);
  }

  // ---- Replacing one page's memory ----

  ghost predicate SamePages(s: Seg, t: Seg) {
    && s.cfg == t.cfg && |s.slots| == |t.slots|
    && forall i :: 0 <= i < |s.slots| ==> s.slots[i].addr == t.slots[i].addr
  }

  lemma {:induction false} IndexSame(s: Seg, t: Seg, ptr: nat, i: nat)
    requires SamePages(s, t) && i <= |s.slots|
    ensures IndexAt(s.slots, s.cfg.pageSize, ptr, i) == IndexAt(t.slots, t.cfg.pageSize, ptr, i)
    decreases |s.slots| - i
  {
    if i < |s.slots| {
      IndexSame(s, t, ptr, i + 1);
    }
  }

  lemma ReplacePage(s: Seg, t: Seg, k: nat)
    requires Inv(s) && k < |s.slots| && SamePages(s, t)
    requires forall i :: 0 <= i < |s.slots| && i != k ==> t.slots[i] == s.slots[i]
    requires SlotOk(s.cfg, t.slots[k])
    requires t.last == s.last || t.last == s.slots[k].addr
    ensures Inv(t)
  {
    forall i: nat ensures GoodSlot(t, i) {
      assert GoodSlot(s, i);
    }
    forall i: nat, j: nat ensures SlotsApart(t, i, j) {
      assert SlotsApart(s, i, j);
    }
    IndexSame(s, t, t.last, 0);
    if t.last == s.slots[k].addr {
      IndexOfPage(s, k);
    }
  }

  lemma ReplaceLive(s: Seg, t: Seg, k: nat, ptr: nat)
    requires k < |s.slots| && SamePages(s, t)
    requires forall i :: 0 <= i < |s.slots| && i != k ==> t.slots[i] == s.slots[i]
    ensures P.LivePtrs(t.slots[k].page) == P.LivePtrs(s.slots[k].page) + {ptr} ==> LivePtrs(t) == LivePtrs(s) + {ptr}
    ensures P.LivePtrs(t.slots[k].page) == P.LivePtrs(s.slots[k].page) ==> LivePtrs(t) == LivePtrs(s)
  {
    if P.LivePtrs(t.slots[k].page) == P.LivePtrs(s.slots[k].page) + {ptr} {
      assert IsLive(t, k, ptr);
      forall p ensures p in LivePtrs(t) <==> p in LivePtrs(s) + {ptr} {
        if p in LivePtrs(t) {
          var i := LiveSomewhere(t, p);
          assert p == ptr || IsLive(s, i, p);
        }
        if p in LivePtrs(s) {
          var i := LiveSomewhere(s, p);
          assert IsLive(t, i, p);
        }
      }
    }
    if P.LivePtrs(t.slots[k].page) == P.LivePtrs(s.slots[k].page) {
      forall p ensures p in LivePtrs(t) <==> p in LivePtrs(s) {
        if p in LivePtrs(t) {
          var i := LiveSomewhere(t, p);
          assert IsLive(s, i, p);
        }
        if p in LivePtrs(s) {
          var i := LiveSomewhere(s, p);
          assert IsLive(t, i, p);
        }
      }
    }
  }

  // ---- Next fit ----

  // Every page is asked exactly once, so a refusal means that every page refuses.
  lemma NextFitIsComplete(s: Seg, size: nat)
    requires Inv(s) && AllUsable(s) && size <= MaxObjectSize(s.cfg)
    ensures TryAllocate(s, size).1 == 0
       <==> forall i :: 0 <= i < |s.slots| ==> P.Allocate(s.slots[i].page, size).1 == 0
  {
  }

  // The search starts at the page that served last, or at the head of the list if there is none.
  lemma StartIsLast(s: Seg)
    requires Inv(s)
    ensures if s.last == 0 then Start(s) == 0 else Start(s) < |s.slots| && s.slots[Start(s)].addr == s.last
  {
  }

  // On the way round the list from position m on, j comes before k.
  predicate Before(m: nat, j: nat, k: nat) {
    if m <= k then m <= j < k else m <= j || j < k
  }

  ghost predicate PageServes(s: Seg, i: nat, size: nat)
    requires AllUsable(s)
  {
    i < |s.slots| && P.SizeOk(size) && P.Allocate(s.slots[i].page, size).1 != 0
  }

  ghost predicate AllRefuse(s: Seg, size: nat)
    requires AllUsable(s)
  {
    forall i: nat :: !PageServes(s, i, size)
  }

  // Page k answers, and all pages that come before it on the way round from the last-used page refuse.
  ghost predicate NextInTurn(s: Seg, k: nat, size: nat)
    requires AllUsable(s)
  {
    && PageServes(s, k, size)
    && exists m :: 0 <= m < |s.slots| && s.slots[m].addr == (if s.last != 0 then s.last else s.slots[0].addr)
                   && forall j: nat :: j < |s.slots| && Before(m, j, k) ==> !PageServes(s, j, size)
  }

  ghost predicate ServedFrom(s: Seg, t: Seg, k: nat, size: nat, ptr: nat)
    requires AllUsable(s)
  {
    && PageServes(s, k, size) && t.cfg == s.cfg && t.last == s.slots[k].addr
    && ptr == P.Allocate(s.slots[k].page, size).1
    && t.slots == s.slots[k := Slot(s.slots[k].addr, P.Allocate(s.slots[k].page, size).0, s.slots[k].isUsed)]
  }

  // A search that is served changes that page only, and remembers it.
  lemma SearchExact(s: Seg, size: nat)
    requires Inv(s) && AllUsable(s)
    ensures var (t, ptr) := TryAllocate(s, size);
      && (ptr == 0 <==> HEADER + size > s.cfg.pageSize || AllRefuse(s, size))
      && (ptr == 0 ==> t == s)
      && (ptr != 0 ==> exists k: nat :: NextInTurn(s, k, size) && ServedFrom(s, t, k, size, ptr))
  {
    StartIsLast(s);
    if HEADER + size <= s.cfg.pageSize {
      var k := NextFit(s, size);
      if k < |s.slots| {
        assert PageServes(s, k, size);
        var m := Start(s);
        assert s.last == 0 ==> m == 0;
        assert m < |s.slots|;
        assert forall j: nat :: j < |s.slots| && Before(m, j, k) ==> !PageServes(s, j, size);
        assert NextInTurn(s, k, size);
      } else {
        forall i: nat ensures !PageServes(s, i, size) {
        }
      }
    }
  }

  // The division by the requested size 0 is reached exactly when an any-size segment's pages all refuse.
  lemma DivisionReached(s: Seg, size: nat)
    requires Inv(s) && AllUsable(s)
    ensures DividesByZero(s, size) <==> s.cfg.sizeClass == 0 && size == 0 && Grows(s, size)
    ensures Grows(s, size) && !DividesByZero(s, size) ==> Countable(s.cfg, size)
  {
  }

  // It is reached whenever all pages were given back.
  lemma NoPagesDivides(c: Config)
    requires ValidConfig(c) && c.sizeClass == 0
    ensures Inv(Seg(c, [], 0)) && DividesByZero(Seg(c, [], 0), 0)
  {
  }

  lemma ServeContract(s: Seg, k: nat, size: nat)
    requires Inv(s) && k < |s.slots| && AllUsable(s) && P.SizeOk(size)
    requires P.Allocate(s.slots[k].page, size).1 != 0
    ensures var (t, ptr) := ServeFrom(s, k, size);
      && Inv(t) && SamePages(s, t) && t.last == s.slots[k].addr
      && LivePtrs(t) == LivePtrs(s) + {ptr} && ptr !in LivePtrs(s)
      && IsLive(t, k, ptr)
  {
    var (t, ptr) := ServeFrom(s, k, size);
    assert GoodSlot(s, k);
    P.AllocateContract(s.slots[k].page, size);
    ReplacePage(s, t, k);
    ReplaceLive(s, t, k, ptr);
    assert IsLive(t, k, ptr);
    LiveIndex(t, k, ptr);
    if ptr in LivePtrs(s) {
      var i := LiveSomewhere(s, ptr);
      LiveIndex(s, i, ptr);
      IndexSame(s, t, ptr, 0);
    }
  }

  // A served request adds one pointer that was not live before, and the serving page becomes the
  // place where the next search starts; a refused one changes nothing.
  lemma TryAllocateContract(s: Seg, size: nat)
    requires Inv(s) && AllUsable(s)
    ensures var (t, ptr) := TryAllocate(s, size);
      && Inv(t) && SamePages(s, t)
      && (ptr == 0 ==> t == s)
      && (ptr != 0 ==>
            && LivePtrs(t) == LivePtrs(s) + {ptr} && ptr !in LivePtrs(s)
            && size <= MaxObjectSize(s.cfg)
            && NextFit(s, size) < |s.slots|
            && IsLive(t, NextFit(s, size), ptr)
            && t.last == s.slots[NextFit(s, size)].addr)
  {
    if size <= MaxObjectSize(s.cfg) && NextFit(s, size) < |s.slots| {
      ServeContract(s, NextFit(s, size), size);
    }
  }

  // ---- Deallocation with immediate recycling ----

  lemma RemovePageContract(s: Seg, k: nat)
    requires Inv(s) && k < |s.slots| && P.LivePtrs(s.slots[k].page) == {}
    ensures Inv(RemovePage(s, k)) && LivePtrs(RemovePage(s, k)) == LivePtrs(s)
  {
    var t := RemovePage(s, k);
    forall i: nat ensures GoodSlot(t, i) {
      assert GoodSlot(s, if i < k then i else i + 1);
    }
    forall i: nat, j: nat ensures SlotsApart(t, i, j) {
      assert SlotsApart(s, if i < k then i else i + 1, if j < k then j else j + 1);
    }
    RemoveKeepsLast(s, k);
    forall p ensures p in LivePtrs(t) <==> p in LivePtrs(s) {
      if p in LivePtrs(t) {
        var i := LiveSomewhere(t, p);
        assert IsLive(s, if i < k then i else i + 1, p);
      }
      if p in LivePtrs(s) {
        var i := LiveSomewhere(s, p);
        assert IsLive(t, if i < k then i else i - 1, p);
      }
    }
  }

  // After unlinking a page the last-used page is still in the list, or there is none.
  lemma RemoveKeepsLast(s: Seg, k: nat)
    requires Inv(s) && k < |s.slots|
    requires forall i: nat, j: nat :: SlotsApart(RemovePage(s, k), i, j)
    ensures var t := RemovePage(s, k);
      t.last == 0 || (IndexAt(t.slots, t.cfg.pageSize, t.last, 0) < |t.slots|
                      && t.slots[IndexAt(t.slots, t.cfg.pageSize, t.last, 0)].addr == t.last)
  {
    var t := RemovePage(s, k);
    if t.last != 0 {
      var j := if s.last != s.slots[k].addr then IndexAt(s.slots, s.cfg.pageSize, s.last, 0)
               else if k > 0 then k - 1 else k + 1;
      assert s.slots[j].addr == t.last && j != k;
      IndexOfPage(t, if j < k then j else j - 1);
    }
  }

  // Freeing a live pointer makes exactly that pointer free, and the page count never falls below
  // the smaller of its old value and the threshold.
  lemma DeallocateContract(s: Seg, ptr: nat)
    requires Inv(s) && ptr in LivePtrs(s)
    ensures var t := Deallocate(s, ptr);
      && Inv(t) && t.cfg == s.cfg && LivePtrs(t) == LivePtrs(s) - {ptr}
      && (|t.slots| == |s.slots| || (|t.slots| == |s.slots| - 1 && |t.slots| >= s.cfg.threshold))
  {
    var k := LiveSomewhere(s, ptr);
    LiveIndex(s, k, ptr);
    assert GoodSlot(s, k);
    P.DeallocateContract(s.slots[k].page, ptr);
    var q := P.Deallocate(s.slots[k].page, ptr);
    var w := WithPage(s, k, q);
    ReplacePage(s, w, k);
    FreedLive(s, k, ptr);
    P.UsedZero(q);
    if P.Used(q) == 0 {
      if |s.slots| > s.cfg.threshold {
        RemovePageContract(w, k);
      } else {
        var t := w.(slots := w.slots[k := w.slots[k].(isUsed := false)]);
        assert GoodSlot(w, k);
        ReplacePage(w, t, k);
        ReplaceLive(w, t, k, ptr);
      }
    }
  }

  // The page of a freed pointer leaves the list exactly if that was its only live pointer and the segment has more
  // pages than it is to keep. If it stays, it loses its flag exactly when it is empty. No other page changes.
  lemma DeallocateExact(s: Seg, ptr: nat) returns (k: nat)
    requires Inv(s) && ptr in LivePtrs(s)
    ensures k < |s.slots| && InPage(s.slots[k], s.cfg.pageSize, ptr) && ptr in P.LivePtrs(s.slots[k].page)
    ensures var t, slot := Deallocate(s, ptr), s.slots[k];
      var emptied := P.LivePtrs(slot.page) == {ptr};
      var leaves := emptied && |s.slots| > s.cfg.threshold;
      && t.cfg == s.cfg
      && t.slots == (if leaves then s.slots[..k] + s.slots[k + 1..]
                     else s.slots[k := Slot(slot.addr, P.Deallocate(slot.page, ptr), slot.isUsed && !emptied)])
      && (!leaves || s.last != slot.addr ==> t.last == s.last)
      && (leaves && s.last == slot.addr ==>
            t.last == if k > 0 then s.slots[k - 1].addr else if |s.slots| > 1 then s.slots[1].addr else 0)
  {
    k := LiveSomewhere(s, ptr);
    LiveIndex(s, k, ptr);
    assert GoodSlot(s, k);
    var page := s.slots[k].page;
    P.DeallocateContract(page, ptr);
    P.UsedZero(P.Deallocate(page, ptr));
    assert P.LivePtrs(page) - {ptr} == {} <==> P.LivePtrs(page) == {ptr};
    var w := WithPage(s, k, P.Deallocate(page, ptr));
    assert w.slots[..k] == s.slots[..k] && w.slots[k + 1..] == s.slots[k + 1..];
  }

  lemma FreedLive(s: Seg, k: nat, ptr: nat)
    requires Inv(s) && IsLive(s, k, ptr)
    requires P.LivePtrs(P.Deallocate(s.slots[k].page, ptr)) == P.LivePtrs(s.slots[k].page) - {ptr}
    ensures LivePtrs(WithPage(s, k, P.Deallocate(s.slots[k].page, ptr))) == LivePtrs(s) - {ptr}
  {
    var w := WithPage(s, k, P.Deallocate(s.slots[k].page, ptr));
    forall p ensures p in LivePtrs(w) <==> p in LivePtrs(s) - {ptr} {
      if p in LivePtrs(w) {
        var i := LiveSomewhere(w, p);
        assert IsLive(s, i, p);
        LiveIndex(s, i, p);
        LiveIndex(s, k, ptr);
      }
      if p in LivePtrs(s) - {ptr} {
        var i := LiveSomewhere(s, p);
        assert IsLive(w, i, p);
      }
    }
  }

  // A page that a deallocation gives back to the system holds no pointer that is still live.
  lemma ReleasedPageIsEmpty(s: Seg, ptr: nat, p: nat)
    requires Inv(s) && ptr in LivePtrs(s) && |Deallocate(s, ptr).slots| < |s.slots|
    requires p in LivePtrs(Deallocate(s, ptr))
    ensures !InPage(s.slots[IndexAt(s.slots, s.cfg.pageSize, ptr, 0)], s.cfg.pageSize, p)
  {
    var k := LiveSomewhere(s, ptr);
    LiveIndex(s, k, ptr);
    assert GoodSlot(s, k);
    DeallocateContract(s, ptr);
    P.DeallocateContract(s.slots[k].page, ptr);
    P.UsedZero(P.Deallocate(s.slots[k].page, ptr));
    var i := LiveSomewhere(s, p);
    LiveIndex(s, i, p);
    assert SlotsApart(s, i, k) && SlotsApart(s, k, i);
  }

  // ---- Growth ----

  lemma {:induction false} FreshSlotsAt(c: Config, buffer: nat, n: nat)
    requires ValidConfig(c)
    ensures |FreshSlots(c, buffer, n)| == n
    ensures forall i :: 0 <= i < n ==>
      var a := buffer + i * c.pageSize;
      FreshSlots(c, buffer, n)[i] == Slot(a, P.Fresh(a + HEADER, a + c.pageSize, c.sizeClass, c.coalesce), true)
    decreases n
  {
    if n > 0 {
      FreshSlotsAt(c, buffer + c.pageSize, n - 1);
      forall i | 0 < i < n ensures buffer + i * c.pageSize == buffer + c.pageSize + (i - 1) * c.pageSize {
      }
    }
  }

  // Memory for n pages that overlaps no page of the segment, aligned as the system aligns it.
  ghost predicate GoodBuffer(s: Seg, buffer: nat, n: nat) {
    && 0 < buffer && buffer % 4096 == 0 && buffer + n * s.cfg.pageSize <= WORD_LIMIT
    && forall i :: 0 <= i < |s.slots| ==> BufferApart(s, buffer, n, i)
  }

  ghost predicate BufferApart(s: Seg, buffer: nat, n: nat, i: nat)
    requires i < |s.slots|
  {
    s.slots[i].addr + s.cfg.pageSize <= buffer || buffer + n * s.cfg.pageSize <= s.slots[i].addr
  }

  lemma PageInBuffer(buffer: nat, n: nat, pageSize: nat, i: nat)
    requires i < n && pageSize % 4096 == 0
    ensures buffer <= buffer + i * pageSize && buffer + i * pageSize + pageSize <= buffer + n * pageSize
    ensures (i * pageSize) % 4096 == 0
  {
    var rest := n - i - 1;
    assert n * pageSize == i * pageSize + pageSize + rest * pageSize by {
      assert n == i + 1 + rest;
    }
    DividesProduct(i, pageSize, 4096);
  }

  lemma FreshPageOk(c: Config, a: nat)
    requires ValidConfig(c) && 0 < a && a % 4096 == 0 && a + c.pageSize <= WORD_LIMIT
    ensures SlotOk(c, Slot(a, P.Fresh(a + HEADER, a + c.pageSize, c.sizeClass, c.coalesce), true))
    ensures P.LivePtrs(P.Fresh(a + HEADER, a + c.pageSize, c.sizeClass, c.coalesce)) == {}
  {
    P.FreshContract(a + HEADER, a + c.pageSize, c.sizeClass, c.coalesce);
  }

  lemma FreshSlotOk(c: Config, buffer: nat, n: nat, i: nat)
    requires ValidConfig(c) && 0 < buffer && buffer % 4096 == 0 && buffer + n * c.pageSize <= WORD_LIMIT && i < n
    ensures i < |FreshSlots(c, buffer, n)| && SlotOk(c, FreshSlots(c, buffer, n)[i])
    ensures P.LivePtrs(FreshSlots(c, buffer, n)[i].page) == {}
  {
    FreshSlotsAt(c, buffer, n);
    PageInBuffer(buffer, n, c.pageSize, i);
    DividesSum(buffer, i * c.pageSize, 4096);
    FreshPageOk(c, buffer + i * c.pageSize);
  }

  // Growing appends pages that hold nothing; all else stays.
  lemma GrowContract(s: Seg, buffer: nat, n: nat)
    requires Inv(s) && GoodBuffer(s, buffer, n)
    ensures var t := Grow(s, buffer, n);
      && Inv(t) && |t.slots| == |s.slots| + n && s.slots <= t.slots && LivePtrs(t) == LivePtrs(s)
      && forall i :: 0 <= i < n ==> t.slots[|s.slots| + i].addr == buffer + i * s.cfg.pageSize
  {
    var t, f := Grow(s, buffer, n), FreshSlots(s.cfg, buffer, n);
    FreshSlotsAt(s.cfg, buffer, n);
    forall i: nat ensures GoodSlot(t, i) {
      assert GoodSlot(s, i);
      if |s.slots| <= i < |t.slots| {
        FreshSlotOk(s.cfg, buffer, n, i - |s.slots|);
      }
    }
    forall i: nat, j: nat ensures SlotsApart(t, i, j) {
      GrownApart(s, buffer, n, i, j);
    }
    GrowKeepsLast(s, t);
    forall p ensures p in LivePtrs(t) <==> p in LivePtrs(s) {
      if p in LivePtrs(s) {
        var i := LiveSomewhere(s, p);
        assert IsLive(t, i, p);
      }
      if p in LivePtrs(t) {
        var i := LiveSomewhere(t, p);
        if i >= |s.slots| {
          FreshSlotOk(s.cfg, buffer, n, i - |s.slots|);
        }
        assert IsLive(s, i, p);
      }
    }
  }

  lemma GrownApart(s: Seg, buffer: nat, n: nat, i: nat, j: nat)
    requires Inv(s) && GoodBuffer(s, buffer, n)
    ensures SlotsApart(Grow(s, buffer, n), i, j)
  {
    var t := Grow(s, buffer, n);
    FreshSlotsAt(s.cfg, buffer, n);
    assert SlotsApart(s, i, j);
    if |s.slots| <= j < |t.slots| && i < j {
      PageInBuffer(buffer, n, s.cfg.pageSize, j - |s.slots|);
      if i < |s.slots| {
        assert BufferApart(s, buffer, n, i);
      } else {
        PageInBuffer(buffer, j - |s.slots|, s.cfg.pageSize, i - |s.slots|);
      }
    }
  }

  lemma GrowKeepsLast(s: Seg, t: Seg)
    requires Inv(s) && s.slots <= t.slots && t.last == s.last && t.cfg == s.cfg
    requires forall i: nat, j: nat :: SlotsApart(t, i, j)
    ensures t.last == 0 || (IndexAt(t.slots, t.cfg.pageSize, t.last, 0) < |t.slots|
                            && t.slots[IndexAt(t.slots, t.cfg.pageSize, t.last, 0)].addr == t.last)
  {
    if t.last != 0 {
      IndexOfPage(t, IndexAt(s.slots, s.cfg.pageSize, s.last, 0));
    }
  }

  // For every size that passes the segment's size check one page is enough.
  lemma MinimumIsOne(c: Config, size: nat)
    requires Countable(c, size)
    ensures MinimumPages(c, size) == 1
  {
    var objectSize := if c.sizeClass == 0 then size else c.sizeClass;
    var count := if c.sizeClass == 0 then 1 else size / c.sizeClass;
    var room := MaxObjectSize(c);
    var perPage := room / objectSize;
    PerPagePositive(room, objectSize);
    assert count <= perPage by {
      if c.sizeClass != 0 {
        QuotientMonotone(size, room, objectSize);
      }
    }
    if count == 0 {
      assert (0 + perPage - 1) / perPage == 0;
    } else {
      assert (count + perPage - 1) / perPage == 1 by {
        assert count + perPage - 1 == 1 * perPage + (count - 1);
        QuotientIs(count + perPage - 1, 1, count - 1, perPage);
      }
    }
  }

  // The pages added by growth: the floor of count times coefficient, but at least one.
  lemma DesiredCount(c: Config, pageCount: nat, size: nat)
    requires Countable(c, size)
    ensures var n := DesiredPages(c, pageCount, size);
      && n >= 1
      && (c.coefficient <= 0.0 ==> n == 1)
      && (c.coefficient > 0.0 ==>
            && (n as real <= pageCount as real * c.coefficient || n == 1)
            && pageCount as real * c.coefficient < n as real + 1.0)
  {
    MinimumIsOne(c, size);
  }

  lemma NewPageServes(c: Config, buffer: nat, n: nat, size: nat)
    requires ValidConfig(c) && n >= 1 && Countable(c, size)
    requires 0 < buffer && buffer % 4096 == 0 && buffer + n * c.pageSize <= WORD_LIMIT
    ensures var f := FreshSlots(c, buffer, n);
      && |f| == n && f[0].addr == buffer && P.Usable(f[0].page)
      && (P.Allocate(f[0].page, size).1 != 0 <==> c.sizeClass != 0 || size <= c.pageSize - 80)
  {
    FreshSlotsAt(c, buffer, n);
    assert FreshSlots(c, buffer, n)[0].addr == buffer;
    ProductMonotone(1, n, c.pageSize);
    FreshPageServes(c, buffer, size);
  }

  lemma PageMemoryAligned(a: nat, pageSize: nat)
    requires a % 4096 == 0 && pageSize % 4096 == 0 && pageSize > 0
    ensures (a + HEADER) % 16 == 0 && pageSize >= 4096
  {
    DividesTransitive(a, 4096, 16);
    DividesSum(a, HEADER, 16);
  }

  lemma FreshPageServes(c: Config, a: nat, size: nat)
    requires ValidConfig(c) && Countable(c, size)
    requires 0 < a && a % 4096 == 0 && a + c.pageSize <= WORD_LIMIT
    ensures var page := P.Fresh(a + HEADER, a + c.pageSize, c.sizeClass, c.coalesce);
      && P.SizeOk(size) && P.Usable(page)
      && (P.Allocate(page, size).1 != 0 <==> c.sizeClass != 0 || size <= c.pageSize - 80)
  {
    PageMemoryAligned(a, c.pageSize);
    P.FreshServes(a + HEADER, a + c.pageSize, c.sizeClass, c.coalesce, size);
  }

  // When the arena answers, growth appends the desired pages and then serves: always for a size
  // class, and for any-size pages exactly the sizes that leave room for one header.
  lemma ExtendContract(s: Seg, size: nat, buffer: nat)
    requires Inv(s) && Countable(s.cfg, size)
    requires GoodBuffer(s, buffer, DesiredPages(s.cfg, |s.slots|, size))
    ensures var (t, ptr) := Extend(s, size, buffer);
      && Inv(t) && t.cfg == s.cfg
      && |t.slots| == |s.slots| + DesiredPages(s.cfg, |s.slots|, size)
      && (forall i :: 0 <= i < |s.slots| ==> t.slots[i] == s.slots[i])
      && (ptr != 0 <==> s.cfg.sizeClass != 0 || size <= s.cfg.pageSize - 80)
      && (ptr == 0 ==> LivePtrs(t) == LivePtrs(s))
      && (ptr != 0 ==> LivePtrs(t) == LivePtrs(s) + {ptr} && ptr !in LivePtrs(s) && t.last == buffer)
      && (ptr != 0 ==> IsLive(t, |s.slots|, ptr) && t.slots[|s.slots|].addr == buffer)
  {
    var n := DesiredPages(s.cfg, |s.slots|, size);
    DesiredCount(s.cfg, |s.slots|, size);
    var g := Grow(s, buffer, n);
    GrowContract(s, buffer, n);
    InvUsable(g);
    NewPageServes(s.cfg, buffer, n, size);
    assert g.slots[|s.slots|] == FreshSlots(s.cfg, buffer, n)[0];
    if P.Allocate(g.slots[|s.slots|].page, size).1 != 0 {
      ServeContract(g, |s.slots|, size);
    }
  }

  // A search in any-size pages never serves more than a new page could.
  lemma SearchServesFitting(s: Seg, size: nat)
    requires Inv(s) && AllUsable(s) && s.cfg.sizeClass == 0 && TryAllocate(s, size).1 != 0
    ensures size <= s.cfg.pageSize - 80
  {
    var k := NextFit(s, size);
    assert GoodSlot(s, k);
    P.ServedFits(s.slots[k].page, size);
  }

  // What a segment serves as long as the arena answers when it is asked.
  predicate Served(c: Config, size: nat) {
    if c.sizeClass != 0 then HEADER + size <= c.pageSize else 80 + size <= c.pageSize
  }

  // An unbounded segment, whether the arena was asked or not: which sizes it serves does not depend on the
  // pages it has.
  lemma UnboundedContract(s: Seg, size: nat, buffer: nat)
    requires Inv(s) && AllUsable(s) && !DividesByZero(s, size)
    requires buffer != 0 ==> Countable(s.cfg, size) && GoodBuffer(s, buffer, DesiredPages(s.cfg, |s.slots|, size))
    ensures var (t, ptr) := AllocateUnbounded(s, size, buffer);
      && Inv(t) && t.cfg == s.cfg
      && (ptr == 0 ==> LivePtrs(t) == LivePtrs(s))
      && (ptr != 0 ==> LivePtrs(t) == LivePtrs(s) + {ptr} && ptr !in LivePtrs(s))
      && (buffer != 0 || !Grows(s, size) ==> (ptr != 0 <==> Served(s.cfg, size)))
  {
    TryAllocateContract(s, size);
    if s.cfg.sizeClass == 0 && TryAllocate(s, size).1 != 0 {
      SearchServesFitting(s, size);
    }
    if buffer != 0 {
      ExtendContract(s, size, buffer);
    }
  }

  // Pages are added exactly if all pages at hand refuse a size that a page could hold, and the arena answers.
  // They come behind the others, which stay as they are; otherwise the list of pages stays.
  lemma GrowsOnlyIfNeeded(s: Seg, size: nat, buffer: nat)
    requires Inv(s) && AllUsable(s) && !DividesByZero(s, size)
    requires buffer != 0 ==> Countable(s.cfg, size) && GoodBuffer(s, buffer, DesiredPages(s.cfg, |s.slots|, size))
    ensures var t := AllocateUnbounded(s, size, buffer).0;
      if HEADER + size <= s.cfg.pageSize && AllRefuse(s, size) && buffer != 0 then
        && |t.slots| == |s.slots| + DesiredPages(s.cfg, |s.slots|, size)
        && forall i :: 0 <= i < |s.slots| ==> t.slots[i] == s.slots[i]
      else SamePages(s, t)
  {
    TryAllocateContract(s, size);
    SearchExact(s, size);
    if buffer != 0 {
      ExtendContract(s, size, buffer);
    }
  }
}
