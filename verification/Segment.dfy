// The segment as it works: a doubly linked list of pages threaded through page headers.
module SegmentModel {
  import opened Arith
  import opened Bits
  import opened Words
  import opened ArenaModel
  import opened SegmentSpec
  import opened SegmentTheorems
  import opened SegmentLookup
  import opened SegmentList
  import opened SegmentDrain
  import SegmentRoom
  import P = LogicalPages

  datatype Concurrency = ThreadLocal | Central | SingleThread

  // Next fit asks the pages in this order: from the one that served last to the end, then from the head.
  ghost function RotationAt(s: Seg, i: nat): nat
    requires i < |s.slots| && Start(s) <= |s.slots|
  {
    var j := Start(s) + i;
    if j < |s.slots| then s.slots[j].addr else s.slots[j - |s.slots|].addr
  }

  // The pages asked so far are the first ones of that order, without repetition.
  ghost predicate Asked(s: Seg, tried: seq<nat>) {
    && Start(s) <= |s.slots| && |tried| <= |s.slots|
    && forall i :: 0 <= i < |tried| ==> tried[i] == RotationAt(s, i)
  }

  // The next page of the order is the one at list position k.
  ghost predicate NextInOrder(s: Seg, asked: nat, k: nat) {
    Start(s) <= |s.slots| && (Start(s) + asked == k || (Start(s) + asked == k + |s.slots| && k <= Start(s)))
  }

  // Asking the pages from position i on continues the order.
  lemma OneMoreAsked(s: Seg, before: nat, i: nat, tried: seq<nat>, k: nat, end: nat)
    requires Asked(s, tried) && NextInOrder(s, before, i) && i <= k < end <= |s.slots| && |tried| == before + k - i
    requires before > 0 ==> end <= Start(s)
    ensures Asked(s, tried + [s.slots[k].addr])
  {
    var t := tried + [s.slots[k].addr];
    assert |t| <= |s.slots| && RotationAt(s, |tried|) == s.slots[k].addr;
  }

  // The order visits every page exactly once.
  lemma RotationVisitsAll(s: Seg, a: nat) returns (i: nat)
    requires Inv(s) && exists k :: 0 <= k < |s.slots| && s.slots[k].addr == a
    ensures i < |s.slots| && RotationAt(s, i) == a
    ensures forall j: nat :: j < |s.slots| && j != i ==> RotationAt(s, j) != a
  {
    var k :| 0 <= k < |s.slots| && s.slots[k].addr == a;
    InvDistinct(s);
    i := if k >= Start(s) then k - Start(s) else k + |s.slots| - Start(s);
    forall j: nat | j < |s.slots| && j != i ensures RotationAt(s, j) != a {
      var m := if Start(s) + j < |s.slots| then Start(s) + j else Start(s) + j - |s.slots|;
      assert Distinct(s.slots, m, k) && Distinct(s.slots, k, m);
    }
  }

  // ---- Growth, page by page ----

  lemma GoodPrefix(s: Seg, buffer: nat, n: nat, i: nat)
    requires GoodBuffer(s, buffer, n) && i <= n
    ensures GoodBuffer(s, buffer, i)
  {
    ProductMonotone(i, n, s.cfg.pageSize);
    forall j | 0 <= j < |s.slots| ensures BufferApart(s, buffer, i, j) {
      assert BufferApart(s, buffer, n, j);
    }
  }

  ghost function NewSlot(c: Config, a: nat): Slot
  {
    Slot(a, P.Fresh(a + HEADER, if c.pageSize >= HEADER then a + c.pageSize else a + HEADER, c.sizeClass, c.coalesce),
      true)
  }

  // Where the list ends after i pages were appended.
  lemma GrowEnd(s: Seg, buffer: nat, i: nat)
    requires Inv(s)
    ensures var t := SegmentSpec.Grow(s, buffer, i).slots;
      && |t| == |s.slots| + i
      && (i > 0 ==> t[|t| - 1].addr == buffer + (i - 1) * s.cfg.pageSize)
      && (i == 0 ==> t == s.slots)
  {
    FreshSlotsAt(s.cfg, buffer, i);
  }

  // Growth appends, so the list keeps its head unless it had none.
  lemma GrownEnds(s: Seg, buffer: nat, n: nat)
    requires Inv(s) && GoodBuffer(s, buffer, n) && n >= 1
    ensures var t := SegmentSpec.Grow(s, buffer, n);
      && Inv(t) && t.cfg == s.cfg && t.last == s.last && |t.slots| == |s.slots| + n
      && (AddrAt(s.slots, 0) == 0 <==> s.slots == [])
      && AddrAt(t.slots, 0) == (if s.slots == [] then buffer else AddrAt(s.slots, 0))
      && buffer + (n - 1) * s.cfg.pageSize >= 0 && AddrAt(t.slots, |t.slots| - 1) == buffer + (n - 1) * s.cfg.pageSize
  {
    GrowContract(s, buffer, n);
    GrowEnd(s, buffer, n);
    FreshSlotsAt(s.cfg, buffer, n);
    InvDistinct(s);
    Offset(buffer, 0, s.cfg.pageSize);
  }

  lemma OneSlotMore(s: Seg, buffer: nat, i: nat)
    requires ValidConfig(s.cfg)
    ensures SegmentSpec.Grow(s, buffer, i + 1).slots
         == SegmentSpec.Grow(s, buffer, i).slots + [NewSlot(s.cfg, buffer + i * s.cfg.pageSize)]
  {
    OneFreshMore(s.cfg, buffer, i);
  }

  lemma {:induction false} OneFreshMore(c: Config, buffer: nat, n: nat)
    requires ValidConfig(c)
    ensures buffer + n * c.pageSize >= 0
    ensures FreshSlots(c, buffer, n + 1) == FreshSlots(c, buffer, n) + [NewSlot(c, buffer + n * c.pageSize)]
    decreases n
  {
    Offset(buffer, n, c.pageSize);
    if n > 0 {
      OneFreshMore(c, buffer + c.pageSize, n - 1);
    }
  }

  lemma Offset(buffer: nat, n: nat, pageSize: nat)
    ensures n == 0 ==> buffer + n * pageSize == buffer
    ensures n > 0 ==> buffer + n * pageSize == (buffer + pageSize) + (n - 1) * pageSize
  {
  }

  lemma GrownDistinct(s: Seg, buffer: nat, n: nat, i: nat)
    requires Inv(s) && GoodBuffer(s, buffer, n) && i <= n
    ensures AllDistinct(SegmentSpec.Grow(s, buffer, i).slots)
    ensures forall k :: 0 <= k < |SegmentSpec.Grow(s, buffer, i).slots| ==>
      SegmentSpec.Grow(s, buffer, i).slots[k].addr > 0
  {
    GoodPrefix(s, buffer, n, i);
    GrowContract(s, buffer, i);
    InvDistinct(SegmentSpec.Grow(s, buffer, i));
  }

  // Linking page i behind the i pages before it.
  lemma GrowStep(headers: map<nat, Header>, s: Seg, buffer: nat, n: nat, i: nat)
    requires Inv(s) && GoodBuffer(s, buffer, n) && i < n
    requires Linked(headers, SegmentSpec.Grow(s, buffer, i).slots)
    ensures var t, a := SegmentSpec.Grow(s, buffer, i).slots, buffer + i * s.cfg.pageSize;
      && SegmentSpec.Grow(s, buffer, i + 1).slots == t + [NewSlot(s.cfg, a)]
      && (t != [] ==> t[|t| - 1].addr in headers && t[|t| - 1].addr != a && t[|t| - 1].addr > 0)
      && Linked(Appended(headers, t, NewSlot(s.cfg, a)), t + [NewSlot(s.cfg, a)])
  {
    var t, slot := SegmentSpec.Grow(s, buffer, i).slots, NewSlot(s.cfg, buffer + i * s.cfg.pageSize);
    OneSlotMore(s, buffer, i);
    GrownDistinct(s, buffer, n, i);
    GrownDistinct(s, buffer, n, i + 1);
    AppendLinked(headers, t, slot);
    LastLinked(headers, t, slot);
  }

  // The first growth of a segment without pages.
  lemma FirstGrowth(c: Config, buffer: nat, n: nat)
    requires ValidConfig(c) && 0 < buffer && buffer % 4096 == 0 && buffer + n * c.pageSize <= WORD_LIMIT
    ensures var s := Seg(c, [], 0);
      && Inv(s) && GoodBuffer(s, buffer, n) && SegmentSpec.Grow(s, buffer, n) == Seg(c, FreshSlots(c, buffer, n), 0)
      && Bytes(SegmentSpec.Grow(s, buffer, n)) == Range(buffer, n * c.pageSize)
  {
    var s := Seg(c, [], 0);
    assert [] + FreshSlots(c, buffer, n) == FreshSlots(c, buffer, n);
    GrownBytes(s, buffer, n);
    NoBytes(c);
  }

  lemma NoBytes(c: Config)
    requires ValidConfig(c)
    ensures Bytes(Seg(c, [], 0)) == {}
  {
  }

  lemma SomePages(c: Config, pageCount: nat, size: nat)
    requires Countable(c, size)
    ensures DesiredPages(c, pageCount, size) >= 1
  {
    DesiredCount(c, pageCount, size);
  }

  lemma ExtendReady(c: Config, n: nat, alignment: nat)
    requires ValidConfig(c) && alignment > 0
    ensures (n * c.pageSize) % 4096 == 0
    ensures Divisible(c.pageSize, alignment) ==> Divisible(n * c.pageSize, alignment)
  {
    DividesProduct(n, c.pageSize, 4096);
    if Divisible(c.pageSize, alignment) {
      DivisibleMod(c.pageSize, alignment);
      DividesProduct(n, c.pageSize, alignment);
      DivisibleMod(n * c.pageSize, alignment);
    }
  }

  // ---- Deallocation ----

  lemma UpdatePage(s: Seg, k: nat, page: P.PageState, ptr: nat)
    requires Inv(s) && IsLive(s, k, ptr) && page == P.Deallocate(s.slots[k].page, ptr)
    ensures Inv(WithPage(s, k, page)) && SamePages(s, WithPage(s, k, page))
  {
    assert GoodSlot(s, k);
    P.DeallocateContract(s.slots[k].page, ptr);
    ReplacePage(s, WithPage(s, k, page), k);
  }

  ghost function Marked(s: Seg, k: nat): Seg
    requires k < |s.slots|
  {
    s.(slots := s.slots[k := s.slots[k].(isUsed := false)])
  }

  // The flag of a page that leaves the list does not matter.
  lemma RemoveMarked(s: Seg, k: nat)
    requires k < |s.slots|
    ensures RemovePage(Marked(s, k), k) == RemovePage(s, k)
  {
    var m := Marked(s, k);
    assert m.slots[..k] == s.slots[..k] && m.slots[k + 1..] == s.slots[k + 1..];
  }

  lemma FirstPageInside(buffer: nat, count: nat, pageSize: nat)
    requires count > 0
    ensures Range(buffer, pageSize) <= Range(buffer, count * pageSize)
  {
    ProductMonotone(1, count, pageSize);
  }

  class Segment {
    const concurrency: Concurrency
    const aligned: bool              // buffer_aligned_to_logical_page_size
    const arena: Arena

    var cfg: Config                  // page size, size class, threshold and grow coefficient
    var maxObjectSize: nat
    var pageCount: nat               // m_logical_page_count
    var bufferLength: nat            // bounded segments only
    var head: nat
    var tail: nat
    var lastUsed: nat
    var headers: map<nat, Header>    // page headers in memory, by page address
    var queue: seq<nat>              // the deallocation queue, next pointer to pop last

    ghost var seg: Seg

    ghost predicate Valid()
      reads this
    {
      && seg.cfg == cfg && seg.last == lastUsed && pageCount == |seg.slots|
      && Inv(seg)
      && maxObjectSize == MaxObjectSize(cfg)
      && Listed()
      && (aligned ==> PageAligned(seg))
    }

    // What the look-up by mask needs beyond aligned pages.
    ghost predicate Maskable()
      reads this
    {
      aligned ==> IsPow2(cfg.pageSize)
    }

    // Head and tail are the ends of the list, and the headers link it.
    ghost predicate Listed()
      reads this
    {
      && head == AddrAt(seg.slots, 0) && tail == AddrAt(seg.slots, |seg.slots| - 1)
      && Linked(headers, seg.slots)
    }

    constructor (concurrency: Concurrency, aligned: bool, arena: Arena)
      ensures this.concurrency == concurrency && this.aligned == aligned && this.arena == arena
      ensures seg.slots == [] && seg.last == 0 && Listed() && pageCount == 0 && lastUsed == 0 && queue == []
    {
      this.concurrency, this.aligned, this.arena := concurrency, aligned, arena;
      cfg := Config(0, 0, true, 0, 0.0);
      maxObjectSize, pageCount, bufferLength, head, tail, lastUsed := 0, 0, 0, 0, 0, 0;
      headers, queue := map[], [];
      seg := Seg(Config(0, 0, true, 0, 0.0), [], 0);
    }

    // ---- Growth ----

    // Build a page at address a and, unless it is the very first, link it behind `previous`.
    method CreatePage(a: nat, previous: nat, ghost slots: seq<Slot>)
      requires HEADER < cfg.pageSize
      requires if slots == [] then previous == 0 else previous == slots[|slots| - 1].addr
      requires slots != [] ==> previous > 0 && previous != a
      requires slots != [] ==> previous in headers
      modifies this`headers, this`pageCount
      ensures headers == Appended(old(headers), slots, NewSlot(cfg, a)) && pageCount == old(pageCount) + 1
    {
      var page := P.Fresh(a + HEADER, a + cfg.pageSize, cfg.sizeClass, cfg.coalesce);
      headers := headers[a := Header(0, 0, true, page)];
      pageCount := pageCount + 1;
      if previous != 0 {
        headers := headers[previous := headers[previous].(next := a)];
        headers := headers[a := headers[a].(prev := previous)];
      }
    }

    // Build page i of the new ones and link it behind the page before it.
    method LinkNext(buffer: nat, ghost n: nat, i: nat)
      requires Inv(seg) && seg.cfg == cfg && i < n && GoodBuffer(seg, buffer, n)
      requires Linked(headers, SegmentSpec.Grow(seg, buffer, i).slots)
      requires tail == AddrAt(seg.slots, |seg.slots| - 1)
      modifies this`headers, this`pageCount
      ensures Linked(headers, SegmentSpec.Grow(seg, buffer, i + 1).slots) && pageCount == old(pageCount) + 1
    {
      GrowEnd(seg, buffer, i);
      GrowStep(headers, seg, buffer, n, i);
      var previous: nat := if i == 0 then tail else buffer + (i - 1) * cfg.pageSize;
      CreatePage(buffer + i * cfg.pageSize, previous, SegmentSpec.Grow(seg, buffer, i).slots);
    }

    // Build pages one behind the other from `buffer` and link them behind the last page.
    method LinkPages(buffer: nat, n: nat)
      requires Inv(seg) && seg.cfg == cfg && Listed() && n >= 1 && GoodBuffer(seg, buffer, n)
      modifies this`headers, this`pageCount
      ensures Linked(headers, SegmentSpec.Grow(seg, buffer, n).slots) && pageCount == old(pageCount) + n
    {
      GrowEnd(seg, buffer, 0);
      LinkNext(buffer, n, 0);
      var i := 1;
      while i < n
        invariant 1 <= i <= n
        invariant Linked(headers, SegmentSpec.Grow(seg, buffer, i).slots)
        invariant pageCount == old(pageCount) + i
      {
        LinkNext(buffer, n, i);
        i := i + 1;
      }
    }

    // Append n pages in the buffer; returns the first of them.
    method Grow(buffer: nat, n: nat) returns (first: nat)
      requires Valid() && n >= 1 && GoodBuffer(seg, buffer, n)
      requires aligned ==> Divisible(buffer, cfg.pageSize)
      modifies this`headers, this`head, this`tail, this`pageCount, this`seg
      ensures Valid() && seg == SegmentSpec.Grow(old(seg), buffer, n) && first == buffer
    {
      ghost var s := seg;
      GrownEnds(s, buffer, n);
      if aligned {
        GrowAligned(s, buffer, n);
      }
      LinkPages(buffer, n);
      if head == 0 {
        head := buffer;
      }
      tail := buffer + (n - 1) * cfg.pageSize;
      seg := SegmentSpec.Grow(s, buffer, n);
      return buffer;
    }

    // ---- Allocation ----

    // Ask the pages from list position i to before position end, none of which changes; both loops of
    // next fit are this one. k is the serving page's position, end if all refuse.
    method AskPages(size: nat, from: nat, stop: nat, ghost i: nat, ghost end: nat, ghost before: seq<nat>)
      returns (iter: nat, page: P.PageState, ptr: nat, ghost k: nat, ghost tried: seq<nat>)
      requires Linked(headers, seg.slots) && AllDistinct(seg.slots) && AllUsable(seg) && P.SizeOk(size)
      requires forall j :: 0 <= j < |seg.slots| ==> seg.slots[j].addr > 0
      requires i <= end <= |seg.slots| && from == AddrAt(seg.slots, i) && stop == AddrAt(seg.slots, end)
      requires Asked(seg, before) && NextInOrder(seg, |before|, i) && (|before| > 0 ==> end <= Start(seg))
      ensures k == FirstServing(seg, size, i, end) && (ptr == 0 <==> FirstServing(seg, size, i, end) == end)
      ensures ptr != 0 ==>
        var j := FirstServing(seg, size, i, end);
        iter == seg.slots[j].addr && (page, ptr) == P.Allocate(seg.slots[j].page, size)
      ensures Asked(seg, tried) && (ptr != 0 ==> tried != [] && tried[|tried| - 1] == iter)
      ensures ptr == 0 ==> |tried| == |before| + end - i
    {
      iter, k, tried := from, i, before;
      while iter != stop
        invariant i <= k <= end && iter == AddrAt(seg.slots, k)
        invariant FirstServing(seg, size, k, end) == FirstServing(seg, size, i, end)
        invariant |tried| == |before| + k - i && Asked(seg, tried)
        decreases end - k
      {
        assert NodeAt(headers, seg.slots, k);
        OneMoreAsked(seg, |before|, i, tried, k, end);
        tried := tried + [iter];
        page, ptr := P.Allocate(headers[iter].page, size).0, P.Allocate(headers[iter].page, size).1;
        if ptr != 0 {
          return;
        }
        iter := headers[iter].next;
        k := k + 1;
      }
      assert Distinct(seg.slots, k, end);
      page, ptr := P.Fresh(0, 0, 0, true), 0;
    }

    // Next fit without changing any page: from the page that served last to the end, then from the head.
    method FindServing(size: nat) returns (iter: nat, page: P.PageState, ptr: nat, ghost k: nat, ghost tried: seq<nat>)
      requires Listed() && AllDistinct(seg.slots) && AllUsable(seg) && P.SizeOk(size)
      requires forall j :: 0 <= j < |seg.slots| ==> seg.slots[j].addr > 0
      requires lastUsed == seg.last && Start(seg) <= |seg.slots|
      requires lastUsed != 0 ==> AddrAt(seg.slots, Start(seg)) == lastUsed
      ensures k == NextFit(seg, size) && Asked(seg, tried) && (ptr == 0 <==> NextFit(seg, size) == |seg.slots|)
      ensures ptr == 0 ==> |tried| == |seg.slots|
      ensures ptr != 0 ==>
        var j := NextFit(seg, size); iter == seg.slots[j].addr && (page, ptr) == P.Allocate(seg.slots[j].page, size)
      ensures ptr != 0 ==> tried != [] && tried[|tried| - 1] == iter
    {
      var first := if lastUsed != 0 then lastUsed else head;
      iter, page, ptr, k, tried := AskPages(size, first, 0, Start(seg), |seg.slots|, []);
      if ptr == 0 && lastUsed != 0 {
        iter, page, ptr, k, tried := AskPages(size, head, lastUsed, 0, Start(seg), tried);
        if ptr == 0 {
          k := |seg.slots|;
        }
      }
    }

    // The page at list position k has served: record its new state and remember it.
    method Serve(iter: nat, page: P.PageState, size: nat, ghost k: nat)
      requires Valid() && k < |seg.slots| && iter == seg.slots[k].addr && P.SizeOk(size)
      requires P.Usable(seg.slots[k].page) && P.Allocate(seg.slots[k].page, size).1 != 0
      requires page == P.Allocate(seg.slots[k].page, size).0
      modifies this`headers, this`lastUsed, this`seg
      ensures Valid() && seg == ServeFrom(old(seg), k, size).0
    {
      ghost var s := seg;
      InvUsable(s);
      InvDistinct(s);
      ServeContract(s, k, size);
      assert NodeAt(headers, s.slots, k);
      UpdateLinked(headers, s.slots, k, page, s.slots[k].isUsed);
      headers := headers[iter := headers[iter].(page := page)];
      lastUsed := iter;
      seg := ServeFrom(s, k, size).0;
      assert seg.slots == s.slots[k := s.slots[k].(page := page, isUsed := s.slots[k].isUsed)];
    }

    // The search part of allocate_internal.
    method AllocateFromPages(size: nat) returns (ptr: nat, ghost tried: seq<nat>)
      requires Valid() && AllUsable(seg)
      modifies this`headers, this`lastUsed, this`seg
      ensures Valid()
      ensures seg == TryAllocate(old(seg), size).0 && ptr == TryAllocate(old(seg), size).1
      ensures Asked(old(seg), tried)
      ensures ptr == 0 && size <= maxObjectSize ==> |tried| == |old(seg).slots|
      ensures ptr != 0 ==> tried != [] && tried[|tried| - 1] == lastUsed
    {
      if size > maxObjectSize {
        return 0, [];
      }
      InvDistinct(seg);
      TryAllocateContract(seg, size);
      var iter, page;
      ghost var k;
      iter, page, ptr, k, tried := FindServing(size);
      if ptr != 0 {
        Serve(iter, page, size, k);
      }
    }

    // The segment's pages lie in memory that its arena handed out.
    ghost predicate Backed()
      reads this, arena, arena.system
    {
      arena.Valid() && arena.Paged() && Bytes(seg) <= arena.owned
    }

    // What the segment gained is memory the arena had not handed out before, unless the system reuses addresses.
    ghost predicate NewMemory(history: set<nat>, bytes: set<nat>)
      reads this, arena
    {
      history <= arena.history && (!arena.system.reuse ==> Bytes(seg) - bytes !! history)
    }

    // allocate_internal of unbounded segments. `buffer` is the arena's answer, 0 if it was not asked or failed. The
    // arena is asked if all pages refuse a size that a page could hold, and only then; unless it refuses, what is
    // served depends on the size alone.
    method AllocateInternal(size: nat) returns (ptr: nat, ghost buffer: nat)
      requires Valid() && Backed() && !DividesByZero(seg, size)
      requires aligned ==> arena.Aligned() && arena.alignment == cfg.pageSize
      modifies this`headers, this`head, this`tail, this`lastUsed, this`pageCount, this`seg, arena, arena.system
      ensures Valid() && Backed() && arena.alignment == old(arena.alignment)
      ensures AllUsable(old(seg))
      ensures seg == AllocateUnbounded(old(seg), size, buffer).0 && ptr == AllocateUnbounded(old(seg), size, buffer).1
      ensures arena.system.refusals >= old(arena.system.refusals)
      ensures !arena.system.Refused() ==> (ptr != 0 <==> Served(cfg, size))
      ensures HEADER + size > cfg.pageSize || !AllRefuse(old(seg), size) ==> unchanged(arena) && unchanged(arena.system)
      ensures HEADER + size <= cfg.pageSize && AllRefuse(old(seg), size) ==> buffer != 0 || arena.system.Refused()
      ensures arena.owned - Bytes(seg) == old(arena.owned - Bytes(seg))
      ensures NewMemory(old(arena.history), old(Bytes(seg)))
      ensures buffer != 0 ==>
        Countable(cfg, size) && GoodBuffer(old(seg), buffer, DesiredPages(cfg, |old(seg).slots|, size))
      ensures old(arena.Aligned()) && Divisible(cfg.pageSize, arena.alignment) ==> arena.Aligned()
    {
      ghost var s := seg;
      InvUsable(s);
      TryAllocateContract(s, size);
      ghost var tried;
      ptr, tried := AllocateFromPages(size);
      SameBytes(s, seg);
      SearchExact(s, size);
      buffer := 0;
      if ptr == 0 && size <= maxObjectSize {
        ptr, buffer := AllocateByGrowing(size);
      }
      UnboundedContract(s, size, buffer);
    }

    // Bounded segments: drain the queue, then ask the pages at hand.
    method AllocateBounded(size: nat) returns (ptr: nat)
      requires Valid() && Backed() && Maskable() && QueueOk(seg, queue, 0)
      modifies this`headers, this`head, this`tail, this`lastUsed, this`pageCount, this`seg, this`queue, arena`owned,
        arena.system`mapped
      ensures Valid() && Backed() && queue == []
      ensures seg == AllocateLocal(old(seg), old(queue), size).0 && ptr == AllocateLocal(old(seg), old(queue), size).1
      ensures arena.owned - Bytes(seg) == old(arena.owned - Bytes(seg)) && Bytes(seg) <= old(Bytes(seg))
    {
      ghost var s, q := seg, queue;
      LocalContract(s, q, size);
      ptr := ProcessDeallocationQueue(cfg.sizeClass != 0);
      if ptr != 0 {
        return;
      }
      InvUsable(seg);
      TryAllocateContract(seg, size);
      SameBytes(seg, TryAllocate(seg, size).0);
      ghost var tried;
      ptr, tried := AllocateFromPages(size);
    }

    // Ask the arena for the desired pages; nothing changes when it fails.
    method AllocateByGrowing(size: nat) returns (ptr: nat, ghost buffer: nat)
      requires Valid() && Backed() && Countable(cfg, size)
      requires aligned ==> arena.Aligned() && arena.alignment == cfg.pageSize
      modifies this`headers, this`head, this`tail, this`lastUsed, this`pageCount, this`seg, arena, arena.system
      ensures Valid() && Backed() && arena.alignment == old(arena.alignment)
      ensures buffer == 0 ==> seg == old(seg) && ptr == 0 && arena.system.Refused()
      ensures arena.system.refusals >= old(arena.system.refusals)
      ensures buffer != 0 ==>
        && GoodBuffer(old(seg), buffer, DesiredPages(cfg, |old(seg).slots|, size))
        && seg == SegmentSpec.Extend(old(seg), size, buffer).0 && ptr == SegmentSpec.Extend(old(seg), size, buffer).1
      ensures arena.owned - Bytes(seg) == old(arena.owned - Bytes(seg))
      ensures NewMemory(old(arena.history), old(Bytes(seg)))
      ensures old(arena.Aligned()) && Divisible(cfg.pageSize, arena.alignment) ==> arena.Aligned()
    {
      ghost var s := seg;
      var n := DesiredPages(cfg, pageCount, size);
      SomePages(cfg, pageCount, size);
      ExtendReady(cfg, n, arena.alignment);
      var answer := arena.Allocate(n * cfg.pageSize);
      if answer == 0 {
        return 0, 0;
      }
      buffer := answer;
      RegionApart(s, old(arena.owned), buffer, n);
      GrownBytes(s, buffer, n);
      ptr := Extend(answer, n, size);
    }

    // Append the pages and ask the first of them.
    method Extend(buffer: nat, n: nat, size: nat) returns (ptr: nat)
      requires Valid() && Countable(cfg, size) && n == DesiredPages(cfg, |seg.slots|, size) && n >= 1
      requires GoodBuffer(seg, buffer, n) && (aligned ==> Divisible(buffer, cfg.pageSize))
      modifies this`headers, this`head, this`tail, this`pageCount, this`seg, this`lastUsed
      ensures Valid() && seg == SegmentSpec.Extend(old(seg), size, buffer).0
      ensures ptr == SegmentSpec.Extend(old(seg), size, buffer).1
      ensures Bytes(seg) == Bytes(SegmentSpec.Grow(old(seg), buffer, n))
    {
      ghost var s := seg;
      GrowContract(s, buffer, n);
      var first := Grow(buffer, n);
      ghost var g := seg;
      InvUsable(g);
      assert NodeAt(headers, g.slots, |s.slots|);
      var page;
      page, ptr := P.Allocate(headers[first].page, size).0, P.Allocate(headers[first].page, size).1;
      if ptr != 0 {
        ServeContract(g, |s.slots|, size);
        Serve(first, page, size, |s.slots|);
        SameBytes(g, seg);
      }
    }

    // ---- Deallocation ----

    // remove_logical_page: unlink the page at list position k.
    method RemoveLogicalPage(affected: nat, ghost k: nat)
      requires Listed() && lastUsed == seg.last && pageCount == |seg.slots| && AllDistinct(seg.slots)
      requires forall i :: 0 <= i < |seg.slots| ==> seg.slots[i].addr > 0
      requires k < |seg.slots| && affected == seg.slots[k].addr
      modifies this`headers, this`head, this`tail, this`lastUsed, this`pageCount, this`seg
      ensures Listed() && seg == RemovePage(old(seg), k) && lastUsed == seg.last && pageCount == |seg.slots|
    {
      ghost var s, h := seg, headers;
      RemoveLinked(headers, s.slots, k);
      assert NodeAt(headers, s.slots, k);
      assert k > 0 ==> NodeAt(headers, s.slots, k - 1);
      assert NodeAt(headers, s.slots, k + 1) && NodeAt(headers, s.slots, 0) && NodeAt(headers, s.slots, 1);
      assert Distinct(s.slots, k, k + 1) && Distinct(s.slots, k, |s.slots| - 1);
      var next, previous := headers[affected].next, headers[affected].prev;
      if affected == lastUsed {
        lastUsed := if previous != 0 then previous else if next != 0 then next else 0;
      }
      if previous == 0 {
        head := next;
        if head == 0 || headers[head].next == 0 {
          tail := head;
        }
      } else {
        headers := headers[previous := headers[previous].(next := next)];
        if tail == affected {
          tail := previous;
        }
      }
      if next != 0 {
        headers := headers[next := headers[next].(prev := previous)];
      }
      headers := headers - {affected};
      assert headers == Unlinked(h, affected);
      pageCount := pageCount - 1;
      seg := RemovePage(s, k);
    }

    // recycle_logical_page: unlink an empty page and give its memory back.
    method RecycleLogicalPage(affected: nat, ghost k: nat)
      requires Valid() && Backed() && k < |seg.slots| && affected == seg.slots[k].addr
      requires P.LivePtrs(seg.slots[k].page) == {}
      modifies this`headers, this`head, this`tail, this`lastUsed, this`pageCount, this`seg, arena`owned,
        arena.system`mapped
      ensures Valid() && Backed() && seg == RemovePage(old(seg), k)
      ensures arena.owned == old(arena.owned) - Range(affected, cfg.pageSize)
      ensures arena.owned - Bytes(seg) == old(arena.owned - Bytes(seg))
    {
      ghost var s := seg;
      assert GoodSlot(s, k);
      InvDistinct(s);
      RemovePageContract(s, k);
      PageBytes(s, k);
      RemovedBytes(s, k);
      RemoveLogicalPage(affected, k);
      arena.ReleaseToSystem(affected, cfg.pageSize);
    }

    // Give the pointer back to its page.
    method FreeInPage(affected: nat, ptr: nat, ghost k: nat)
      requires Valid() && IsLive(seg, k, ptr) && affected == seg.slots[k].addr
      modifies this`headers, this`seg
      ensures Valid() && seg == WithPage(old(seg), k, P.Deallocate(old(seg).slots[k].page, ptr))
      ensures affected in headers && headers[affected].page == seg.slots[k].page
      ensures Bytes(seg) == Bytes(old(seg))
    {
      ghost var s := seg;
      assert NodeAt(headers, s.slots, k);
      var page := P.Deallocate(headers[affected].page, ptr);
      UpdatePage(s, k, page, ptr);
      InvDistinct(s);
      UpdateLinked(headers, s.slots, k, page, s.slots[k].isUsed);
      headers := headers[affected := headers[affected].(page := page)];
      seg := WithPage(s, k, page);
      assert seg.slots == s.slots[k := s.slots[k].(page := page, isUsed := s.slots[k].isUsed)];
      SameBytes(s, seg);
    }

    // mark_as_non_used.
    method MarkAsNonUsed(affected: nat, ghost k: nat)
      requires Valid() && k < |seg.slots| && affected == seg.slots[k].addr
      modifies this`headers, this`seg
      ensures Valid() && seg == Marked(old(seg), k)
      ensures Bytes(seg) == Bytes(old(seg))
    {
      ghost var s := seg;
      assert NodeAt(headers, s.slots, k) && GoodSlot(s, k);
      InvDistinct(s);
      UpdateLinked(headers, s.slots, k, s.slots[k].page, false);
      headers := headers[affected := headers[affected].(isUsed := false)];
      seg := Marked(s, k);
      ReplacePage(s, seg, k);
      assert seg.slots == s.slots[k := s.slots[k].(page := s.slots[k].page, isUsed := false)];
      SameBytes(s, seg);
    }

    // The common end of both deallocation routines: free the pointer in its page, then let the page
    // go if it is empty and the segment has pages to spare.
    method DeallocateInPage(affected: nat, ptr: nat, ghost k: nat)
      requires Valid() && Backed() && IsLive(seg, k, ptr) && affected == seg.slots[k].addr
      modifies this`headers, this`head, this`tail, this`lastUsed, this`pageCount, this`seg, arena`owned,
        arena.system`mapped
      ensures Valid() && Backed() && seg == SegmentSpec.Deallocate(old(seg), ptr)
      ensures arena.owned - Bytes(seg) == old(arena.owned - Bytes(seg))
    {
      ghost var s := seg;
      LiveIndex(s, k, ptr);
      FreeInPage(affected, ptr, k);
      ghost var w := seg;
      assert GoodSlot(w, k);
      if P.Used(headers[affected].page) == 0 {
        P.UsedZero(w.slots[k].page);
        MarkAsNonUsed(affected, k);
        if pageCount > cfg.threshold {
          RemoveMarked(w, k);
          RecycleLogicalPage(affected, k);
        }
      }
    }

    method DeallocateBySearch(ptr: nat)
      requires Valid() && Backed() && ptr in LivePtrs(seg)
      modifies this`headers, this`head, this`tail, this`lastUsed, this`pageCount, this`seg, arena`owned,
        arena.system`mapped
      ensures Valid() && Backed() && seg == SegmentSpec.Deallocate(old(seg), ptr)
      ensures arena.owned - Bytes(seg) == old(arena.owned - Bytes(seg))
    {
      ghost var k := LiveSomewhere(seg, ptr);
      LiveIndex(seg, k, ptr);
      InvDistinct(seg);
      var iter := FindPage(ptr);
      DeallocateInPage(iter, ptr, k);
    }

    // The linear search of deallocate_by_search and owns_pointer: 0 if no page holds the address.
    method FindPage(ptr: nat) returns (iter: nat)
      requires Listed() && seg.cfg == cfg && forall j :: 0 <= j < |seg.slots| ==> seg.slots[j].addr > 0
      ensures iter == AddrAt(seg.slots, IndexAt(seg.slots, cfg.pageSize, ptr, 0))
    {
      iter := head;
      ghost var i := 0;
      while iter != 0
        invariant 0 <= i <= |seg.slots| && iter == AddrAt(seg.slots, i)
        invariant IndexAt(seg.slots, cfg.pageSize, ptr, i) == IndexAt(seg.slots, cfg.pageSize, ptr, 0)
        decreases |seg.slots| - i
      {
        assert NodeAt(headers, seg.slots, i);
        if iter <= ptr < iter + cfg.pageSize {
          return;
        }
        iter := headers[iter].next;
        i := i + 1;
      }
    }

    // The page is taken to start at the masked address, with no search.
    method DeallocateFromAlignedPage(ptr: nat)
      requires Valid() && Backed() && aligned && IsPow2(cfg.pageSize) && ptr in LivePtrs(seg)
      modifies this`headers, this`head, this`tail, this`lastUsed, this`pageCount, this`seg, arena`owned,
        arena.system`mapped
      ensures Valid() && Backed() && seg == SegmentSpec.Deallocate(old(seg), ptr)
      ensures arena.owned - Bytes(seg) == old(arena.owned - Bytes(seg))
    {
      ghost var k := LiveSomewhere(seg, ptr);
      LiveIndex(seg, k, ptr);
      LookupsAgree(seg, ptr);
      var affected := MaskedPage(ptr, cfg.pageSize);
      DeallocateInPage(affected, ptr, k);
    }

    method DeallocateInternal(ptr: nat)
      requires Valid() && Backed() && Maskable() && ptr in LivePtrs(seg)
      modifies this`headers, this`head, this`tail, this`lastUsed, this`pageCount, this`seg, arena`owned,
        arena.system`mapped
      ensures Valid() && Backed() && seg == SegmentSpec.Deallocate(old(seg), ptr)
      ensures arena.owned - Bytes(seg) == old(arena.owned - Bytes(seg))
    {
      if aligned {
        DeallocateFromAlignedPage(ptr);
      } else {
        DeallocateBySearch(ptr);
      }
    }

    // One turn of the drain: pop a pointer, and keep it for the caller or free it.
    method PopOne(returnInitial: bool, kept: nat) returns (ret: nat)
      requires Valid() && Backed() && Maskable() && QueueOk(seg, queue, kept) && queue != []
      modifies this`headers, this`head, this`tail, this`lastUsed, this`pageCount, this`seg, this`queue, arena`owned,
        arena.system`mapped
      ensures Valid() && Backed() && QueueOk(seg, queue, ret)
      ensures queue == old(queue[..|queue| - 1])
      ensures Drain(seg, queue, ret, returnInitial) == Drain(old(seg), old(queue), kept, returnInitial)
      ensures arena.owned - Bytes(seg) == old(arena.owned - Bytes(seg))
    {
      ghost var s, q := seg, queue;
      var pointer := queue[|queue| - 1];
      queue := queue[..|queue| - 1];
      if returnInitial && kept == 0 {
        PopKeeps(s, q);
        return pointer;
      }
      PopFrees(s, q, kept);
      DeallocateInternal(pointer);
      return kept;
    }

    // Pop until the queue is empty; the first pointer popped may go straight to the caller.
    method ProcessDeallocationQueue(returnInitial: bool) returns (ret: nat)
      requires Valid() && Backed() && Maskable() && QueueOk(seg, queue, 0)
      modifies this`headers, this`head, this`tail, this`lastUsed, this`pageCount, this`seg, this`queue, arena`owned,
        arena.system`mapped
      ensures Valid() && Backed() && queue == []
      ensures seg == Drain(old(seg), old(queue), 0, returnInitial).0
      ensures ret == Drain(old(seg), old(queue), 0, returnInitial).1
      ensures arena.owned - Bytes(seg) == old(arena.owned - Bytes(seg))
    {
      ret := 0;
      while queue != []
        invariant Valid() && Backed() && QueueOk(seg, queue, ret) && cfg == old(cfg)
        invariant Drain(seg, queue, ret, returnInitial) == Drain(old(seg), old(queue), 0, returnInitial)
        invariant arena.owned - Bytes(seg) == old(arena.owned - Bytes(seg))
        decreases |queue|
      {
        ret := PopOne(returnInitial, ret);
      }
    }

    // ---- The interface of the segment ----

    ghost predicate Started()
      reads this
    {
      seg.slots == [] && seg.last == 0 && Listed() && pageCount == 0 && lastUsed == 0 && queue == []
    }

    // All checks pass, but a page cannot hold an object of the size class.
    predicate FirstPageFails(externalBuffer: nat, count: nat, capacity: nat, params: Config) {
      && externalBuffer != 0 && count > 0 && (concurrency == ThreadLocal ==> capacity >= 65536)
      && HEADER < params.pageSize && params.pageSize % 4096 == 0
      && !P.Creatable(HEADER, params.pageSize, params.sizeClass)
    }

    // Build the first pages in the caller's buffer, which the arena handed out before.
    method Create(externalBuffer: nat, count: nat, capacity: nat, params: Config) returns (ok: bool)
      requires Started() && arena.Valid() && arena.Paged()
      requires externalBuffer != 0 ==>
        && Range(externalBuffer, count * params.pageSize) <= arena.owned
        && externalBuffer % 4096 == 0 && externalBuffer + count * params.pageSize <= WORD_LIMIT
        && (aligned && params.pageSize > 0 ==> Divisible(externalBuffer, params.pageSize))
      modifies this, arena`owned, arena.system`mapped
      ensures ok <==>
        && externalBuffer != 0 && count > 0 && ValidConfig(params)
        && (concurrency == ThreadLocal ==> capacity >= 65536)
      ensures ok ==> Valid() && Backed() && queue == [] && arena.owned == old(arena.owned)
      ensures ok ==> seg == Seg(params, FreshSlots(params, externalBuffer, count), 0)
      ensures ok && concurrency == ThreadLocal ==> bufferLength == params.pageSize * count
      ensures !ok ==> seg.slots == [] && arena.Valid()
      ensures arena.owned == if FirstPageFails(externalBuffer, count, capacity, params)
                             then old(arena.owned) - Range(externalBuffer, params.pageSize) else old(arena.owned)
    {
      if params.pageSize == 0 || params.pageSize % 4096 != 0 || count == 0 || params.pageSize <= HEADER
        || externalBuffer == 0 {
        return false;
      }
      if concurrency == ThreadLocal && capacity / 65536 == 0 {
        return false;
      }
      if !P.Creatable(HEADER, params.pageSize, params.sizeClass) {
        FirstPageInside(externalBuffer, count, params.pageSize);
        arena.ReleaseToSystem(externalBuffer, params.pageSize);
        return false;
      }
      ProductMonotone(1, count, params.pageSize);
      FirstPages(externalBuffer, count, params);
      return true;
    }

    method Configure(params: Config)
      requires Started() && ValidConfig(params)
      modifies this`cfg, this`maxObjectSize, this`seg
      ensures Valid() && seg == Seg(params, [], 0)
    {
      cfg, maxObjectSize := params, MaxObjectSize(params);
      seg := Seg(params, [], 0);
    }

    // The first growth of a new segment.
    method FirstPages(externalBuffer: nat, count: nat, params: Config)
      requires Started() && count > 0 && ValidConfig(params)
      requires 0 < externalBuffer && externalBuffer % 4096 == 0
      requires externalBuffer + count * params.pageSize <= WORD_LIMIT
      requires aligned ==> Divisible(externalBuffer, params.pageSize)
      modifies this
      ensures Valid() && queue == [] && Bytes(seg) == Range(externalBuffer, count * params.pageSize)
      ensures seg == Seg(params, FreshSlots(params, externalBuffer, count), 0)
      ensures concurrency == ThreadLocal ==> bufferLength == params.pageSize * count
    {
      ProductMonotone(0, count, params.pageSize);
      var length: nat := params.pageSize * count;
      Configure(params);
      FirstGrowth(params, externalBuffer, count);
      var first := Grow(externalBuffer, count);
      if concurrency == ThreadLocal {
        bufferLength := length;
      }
    }

    // What allocate computes; `buffer` is the arena's answer if the segment asked for more pages.
    ghost function Allocated(size: nat, buffer: nat): (Seg, nat)
      requires Inv(seg) && QueueOk(seg, queue, 0) && (concurrency != ThreadLocal ==> !DividesByZero(seg, size))
      reads this
    {
      InvUsable(seg);
      if concurrency == ThreadLocal then AllocateLocal(seg, queue, size) else AllocateUnbounded(seg, size, buffer)
    }

    method Allocate(size: nat) returns (ptr: nat, ghost buffer: nat)
      requires Valid() && Backed() && QueueOk(seg, queue, 0)
      requires if concurrency == ThreadLocal then Maskable() else !DividesByZero(seg, size)
      requires aligned ==> arena.Aligned() && arena.alignment == cfg.pageSize
      modifies this, arena, arena.system
      ensures Valid() && Backed() && cfg == old(cfg) && arena.alignment == old(arena.alignment)
      ensures bufferLength == old(bufferLength)
      ensures seg == old(Allocated(size, buffer)).0 && ptr == old(Allocated(size, buffer)).1
      ensures arena.system.refusals >= old(arena.system.refusals)
      ensures concurrency != ThreadLocal && !arena.system.Refused() ==> (ptr != 0 <==> Served(cfg, size))
      ensures queue == if concurrency == ThreadLocal then [] else old(queue)
      ensures arena.owned - Bytes(seg) == old(arena.owned - Bytes(seg))
      ensures NewMemory(old(arena.history), old(Bytes(seg)))
      ensures buffer != 0 ==>
        Countable(cfg, size) && GoodBuffer(old(seg), buffer, DesiredPages(cfg, |old(seg).slots|, size))
      ensures old(arena.Aligned()) && Divisible(cfg.pageSize, arena.alignment) ==> arena.Aligned()
    {
      if concurrency == ThreadLocal {
        buffer := 0;
        ptr := AllocateBounded(size);
      } else {
        ptr, buffer := AllocateInternal(size);
      }
    }

    // A pointer given back to a segment without pages is dropped.
    method Deallocate(ptr: nat)
      requires Valid() && Backed() && (head != 0 ==> ptr in LivePtrs(seg))
      requires concurrency != ThreadLocal ==> Maskable()
      modifies this, arena`owned, arena.system`mapped
      ensures Valid() && Backed() && cfg == old(cfg) && bufferLength == old(bufferLength)
      ensures old(head) == 0 || concurrency == ThreadLocal ==> seg == old(seg) && arena.owned == old(arena.owned)
      ensures old(head) != 0 && concurrency != ThreadLocal ==> seg == SegmentSpec.Deallocate(old(seg), ptr)
      ensures queue == if old(head) != 0 && concurrency == ThreadLocal then old(queue) + [ptr] else old(queue)
      ensures arena.owned - Bytes(seg) == old(arena.owned - Bytes(seg))
    {
      if head == 0 {
        return;
      }
      if concurrency == ThreadLocal {
        queue := queue + [ptr];
      } else {
        DeallocateInternal(ptr);
      }
    }

    // The size class, or what the page's header says; 0 for an address in none of the pages.
    method GetUsableSize(ptr: nat) returns (usable: int)
      requires Valid()
      ensures usable == SegmentRoom.UsableSize(seg, ptr)
    {
      if cfg.sizeClass != 0 {
        return cfg.sizeClass;
      }
      InvDistinct(seg);
      ghost var k := IndexAt(seg.slots, cfg.pageSize, ptr, 0);
      assert NodeAt(headers, seg.slots, k);
      var page := FindPage(ptr);
      usable := if page != 0 then P.UsableSize(headers[page].page, ptr) else 0;
    }

    // A bounded segment compares with its buffer, an unbounded one searches its pages.
    method OwnsPointer(ptr: nat) returns (owns: bool)
      requires Valid()
      ensures concurrency == ThreadLocal ==> owns == (head <= ptr < head + bufferLength)
      ensures concurrency != ThreadLocal ==> (owns <==> ptr in Bytes(seg))
    {
      if concurrency == ThreadLocal {
        return head <= ptr < head + bufferLength;
      }
      InvDistinct(seg);
      BytesMember(seg, ptr);
      var page := FindPage(ptr);
      ghost var k := IndexAt(seg.slots, cfg.pageSize, ptr, 0);
      assert k < |seg.slots| ==> PageByte(seg, k, ptr);
      return page != 0;
    }
  }
}
