// Draining the deallocation queue of a bounded segment, as a value.
module SegmentDrain {
  import opened Sequences
  import opened SegmentSpec
  import opened SegmentTheorems
  import opened SegmentList
  import P = LogicalPages

  // Pops until the queue is empty. With keepFirst the first pointer popped is handed straight to the
  // caller; every other pointer is freed.
  function Drain(s: Seg, queue: seq<nat>, kept: nat, keepFirst: bool): (Seg, nat)
    decreases |queue|
  {
    if queue == [] then (s, kept)
    else
      var last, rest := queue[|queue| - 1], queue[..|queue| - 1];
      if keepFirst && kept == 0 then Drain(s, rest, last, keepFirst)
      else Drain(Deallocate(s, last), rest, kept, keepFirst)
  }

  // The queue holds live pointers, each once; a pointer already popped and kept is not among them.
  ghost predicate QueueOk(s: Seg, queue: seq<nat>, kept: nat) {
    && (forall i :: 0 <= i < |queue| ==> queue[i] > 0 && queue[i] in LivePtrs(s) && queue[i] != kept)
    && NoDuplicates(queue)
    && (kept != 0 ==> kept in LivePtrs(s))
  }

  lemma PopKeeps(s: Seg, queue: seq<nat>)
    requires QueueOk(s, queue, 0) && queue != []
    ensures QueueOk(s, queue[..|queue| - 1], queue[|queue| - 1])
  {
    var n := |queue| - 1;
    forall i | 0 <= i < n ensures queue[i] != queue[n] {
      assert Differ(queue, i, n);
    }
    forall i: nat, j: nat ensures Differ(queue[..n], i, j) {
      assert Differ(queue, i, j);
    }
  }

  lemma PopFrees(s: Seg, queue: seq<nat>, kept: nat)
    requires Inv(s) && QueueOk(s, queue, kept) && queue != []
    ensures var n := |queue| - 1;
      Inv(Deallocate(s, queue[n])) && QueueOk(Deallocate(s, queue[n]), queue[..n], kept)
  {
    var n := |queue| - 1;
    DeallocateContract(s, queue[n]);
    forall i | 0 <= i < n ensures queue[i] != queue[n] {
      assert Differ(queue, i, n);
    }
    forall i: nat, j: nat ensures Differ(queue[..n], i, j) {
      assert Differ(queue, i, j);
    }
  }

  // Exactly the queued pointers stop being live, except the one handed to the caller.
  lemma {:induction false} DrainContract(s: Seg, queue: seq<nat>, kept: nat, keepFirst: bool)
    requires Inv(s) && QueueOk(s, queue, kept)
    ensures var (t, ret) := Drain(s, queue, kept, keepFirst);
      && Inv(t) && t.cfg == s.cfg
      && LivePtrs(t) == LivePtrs(s) - ((set q | q in queue) - {ret})
      && (ret == if kept != 0 then kept else if keepFirst && queue != [] then queue[|queue| - 1] else 0)
      && (ret != 0 ==> ret in LivePtrs(t))
      && (|t.slots| >= |s.slots| || |t.slots| >= s.cfg.threshold)
    decreases |queue|
  {
    if queue != [] {
      var n := |queue| - 1;
      assert queue == queue[..n] + [queue[n]];
      if keepFirst && kept == 0 {
        PopKeeps(s, queue);
        DrainContract(s, queue[..n], queue[n], keepFirst);
      } else {
        PopFrees(s, queue, kept);
        DeallocateContract(s, queue[n]);
        DrainContract(Deallocate(s, queue[n]), queue[..n], kept, keepFirst);
      }
    }
  }

  // ---- Which pages a drain gives back ----

  ghost predicate EmptiedBy(s: Seg, gone: set<nat>, i: nat) {
    i < |s.slots| && P.LivePtrs(s.slots[i].page) != {} && P.LivePtrs(s.slots[i].page) <= gone
  }

  // The pages that hold live pointers, all of them among those that go.
  ghost function EmptiedPages(s: Seg, gone: set<nat>): set<nat> {
    set i: nat | i < |s.slots| && EmptiedBy(s, gone, i) :: s.slots[i].addr
  }

  // Freeing one of those pointers first leaves the same pages to be emptied, except its own if that is empty now.
  lemma OneFreed(s: Seg, ptr: nat, gone: set<nat>) returns (k: nat)
    requires Inv(s) && ptr in LivePtrs(s) && ptr in gone
    ensures k < |s.slots| && ptr in P.LivePtrs(s.slots[k].page)
    ensures var t, emptied := Deallocate(s, ptr), P.LivePtrs(s.slots[k].page) == {ptr};
      && EmptiedPages(t, gone - {ptr}) == EmptiedPages(s, gone) - (if emptied then {s.slots[k].addr} else {})
      && (emptied ==> s.slots[k].addr in EmptiedPages(s, gone))
      && |t.slots| == |s.slots| - (if emptied && |s.slots| > s.cfg.threshold then 1 else 0)
  {
    k := DeallocateExact(s, ptr);
    var t, emptied := Deallocate(s, ptr), P.LivePtrs(s.slots[k].page) == {ptr};
    assert GoodSlot(s, k);
    P.DeallocateContract(s.slots[k].page, ptr);
    if emptied {
      assert EmptiedBy(s, gone, k);
    }
    InvDistinct(s);
    forall i: nat | i < |s.slots| && i != k
      ensures ptr !in P.LivePtrs(s.slots[i].page) && s.slots[i].addr != s.slots[k].addr
    {
      LiveIndex(s, k, ptr);
      if ptr in P.LivePtrs(s.slots[i].page) {
        LiveIndex(s, i, ptr);
      }
      assert Distinct(s.slots, i, k) && Distinct(s.slots, k, i);
    }
    SameEmptied(s, t, k, ptr, gone);
  }

  lemma OneLess(live: set<nat>, gone: set<nat>, ptr: nat)
    requires ptr in live && ptr in gone
    ensures live - {ptr} == {} <==> live == {ptr}
    ensures live - {ptr} <= gone - {ptr} <==> live <= gone
  {
    assert live == live - {ptr} + {ptr} && gone == gone - {ptr} + {ptr};
  }

  lemma SameEmptied(s: Seg, t: Seg, k: nat, ptr: nat, gone: set<nat>)
    requires k < |s.slots| && ptr in gone && ptr in P.LivePtrs(s.slots[k].page)
    requires forall i: nat :: i < |s.slots| && i != k ==>
      ptr !in P.LivePtrs(s.slots[i].page) && s.slots[i].addr != s.slots[k].addr
    requires var emptied, page := P.LivePtrs(s.slots[k].page) == {ptr}, P.Deallocate(s.slots[k].page, ptr);
      && P.LivePtrs(page) == P.LivePtrs(s.slots[k].page) - {ptr}
      && (t.slots == s.slots[k := Slot(s.slots[k].addr, page, s.slots[k].isUsed && !emptied)]
          || (emptied && t.slots == s.slots[..k] + s.slots[k + 1..]))
    ensures EmptiedPages(t, gone - {ptr})
         == EmptiedPages(s, gone) - (if P.LivePtrs(s.slots[k].page) == {ptr} then {s.slots[k].addr} else {})
  {
    var removed := |t.slots| < |s.slots|;
    forall i: nat | i < |s.slots| && i != k
      ensures EmptiedBy(s, gone, i) <==> EmptiedBy(t, gone - {ptr}, if removed && i > k then i - 1 else i)
    {
      assert t.slots[if removed && i > k then i - 1 else i] == s.slots[i];
    }
    var live := P.LivePtrs(s.slots[k].page);
    OneLess(live, gone, ptr);
    if !removed {
      assert P.LivePtrs(t.slots[k].page) == live - {ptr};
      assert EmptiedBy(t, gone - {ptr}, k) <==> EmptiedBy(s, gone, k) && live != {ptr};
    }
    forall a
      ensures a in EmptiedPages(t, gone - {ptr})
         <==> a in EmptiedPages(s, gone) && (live == {ptr} ==> a != s.slots[k].addr)
    {
      if a in EmptiedPages(t, gone - {ptr}) {
        var j: nat :| j < |t.slots| && EmptiedBy(t, gone - {ptr}, j) && t.slots[j].addr == a;
        var i := if removed && j >= k then j + 1 else j;
        assert s.slots[i].addr == a;
      }
      if a in EmptiedPages(s, gone) {
        var i: nat :| i < |s.slots| && EmptiedBy(s, gone, i) && s.slots[i].addr == a;
        if i != k || !removed {
          assert t.slots[if removed && i > k then i - 1 else i].addr == a;
        }
      }
    }
  }

  // What is left of n pages when e of them are emptied and `threshold` are to be kept.
  function PagesLeft(n: nat, e: nat, threshold: nat): nat {
    if n <= threshold then n else if e >= n - threshold then threshold else n - e
  }

  lemma PoppedSet(queue: seq<nat>)
    requires queue != [] && NoDuplicates(queue)
    ensures var n := |queue| - 1;
      && queue[n] in queue && (set q | q in queue[..n]) == (set q | q in queue) - {queue[n]}
  {
    var n := |queue| - 1;
    PairsDiffer(queue);
    assert queue == queue[..n] + [queue[n]];
  }

  // Freeing the first pointer popped does not change what the drain will leave.
  lemma FreeingLeaves(s: Seg, ptr: nat, gone: set<nat>)
    requires Inv(s) && ptr in LivePtrs(s) && ptr in gone
    ensures var t := Deallocate(s, ptr);
      PagesLeft(|t.slots|, |EmptiedPages(t, gone - {ptr})|, s.cfg.threshold)
      == PagesLeft(|s.slots|, |EmptiedPages(s, gone)|, s.cfg.threshold)
  {
    var k := OneFreed(s, ptr, gone);
    var emptied := EmptiedPages(s, gone);
    if P.LivePtrs(s.slots[k].page) == {ptr} {
      assert |emptied - {s.slots[k].addr}| == |emptied| - 1;
    } else {
      assert emptied - {} == emptied;
    }
  }

  // What a drain will free.
  ghost function Gone(queue: seq<nat>, ret: nat): set<nat> {
    (set q | q in queue) - {ret}
  }

  lemma GoneSteps(queue: seq<nat>, kept: nat)
    requires queue != [] && NoDuplicates(queue)
    ensures var n := |queue| - 1;
      && Gone(queue, queue[n]) == Gone(queue[..n], queue[n])
      && (kept !in queue ==> queue[n] in Gone(queue, kept) && Gone(queue, kept) - {queue[n]} == Gone(queue[..n], kept))
  {
    PoppedSet(queue);
  }

  lemma NothingGone(s: Seg, kept: nat)
    ensures EmptiedPages(s, Gone([], kept)) == {}
  {
  }

  // What a drain leaves of the pages, given what it hands to the caller.
  ghost predicate Leaves(s: Seg, queue: seq<nat>, t: Seg, ret: nat) {
    |t.slots| == PagesLeft(|s.slots|, |EmptiedPages(s, Gone(queue, ret))|, s.cfg.threshold)
  }

  lemma LeavesMore(s: Seg, queue: seq<nat>, t: Seg, kept: nat)
    requires Inv(s) && QueueOk(s, queue, kept) && queue != []
    requires Leaves(Deallocate(s, queue[|queue| - 1]), queue[..|queue| - 1], t, kept)
    ensures Leaves(s, queue, t, kept)
  {
    var n := |queue| - 1;
    GoneSteps(queue, kept);
    DeallocateContract(s, queue[n]);
    FreeingLeaves(s, queue[n], Gone(queue, kept));
  }

  // A drain gives back as many of the pages it empties as the threshold allows.
  lemma {:induction false} DrainReleases(s: Seg, queue: seq<nat>, kept: nat, keepFirst: bool)
    requires Inv(s) && QueueOk(s, queue, kept)
    ensures var (t, ret) := Drain(s, queue, kept, keepFirst); Leaves(s, queue, t, ret)
    decreases |queue|
  {
    DrainContract(s, queue, kept, keepFirst);
    if queue == [] {
      NothingGone(s, kept);
    } else {
      var n := |queue| - 1;
      if keepFirst && kept == 0 {
        PopKeeps(s, queue);
        DrainReleases(s, queue[..n], queue[n], keepFirst);
        GoneSteps(queue, kept);
      } else {
        PopFrees(s, queue, kept);
        DrainReleases(Deallocate(s, queue[n]), queue[..n], kept, keepFirst);
        LeavesMore(s, queue, Drain(s, queue, kept, keepFirst).0, kept);
      }
    }
  }

  // ---- The owner's allocation ----

  // A page that holds one size class can serve with the first pointer it pops.
  ghost function AllocateLocal(s: Seg, queue: seq<nat>, size: nat): (Seg, nat)
    requires Inv(s) && QueueOk(s, queue, 0)
  {
    var keepFirst := s.cfg.sizeClass != 0;
    var (t, kept) := Drain(s, queue, 0, keepFirst);
    DrainContract(s, queue, 0, keepFirst);
    InvUsable(t);
    if kept != 0 then (t, kept) else TryAllocate(t, size)
  }

  // What the owner's allocation answers: with a size class, the pointer queued last if there is one; otherwise
  // it asks the drained pages, and refuses exactly if the size is too large or they all refuse.
  lemma LocalServes(s: Seg, queue: seq<nat>, size: nat)
    requires Inv(s) && QueueOk(s, queue, 0)
    ensures var ptr, d := AllocateLocal(s, queue, size).1, Drain(s, queue, 0, s.cfg.sizeClass != 0).0;
      && Inv(d) && AllUsable(d) && d.cfg == s.cfg && (queue == [] ==> d == s)
      && if s.cfg.sizeClass != 0 && queue != [] then ptr == queue[|queue| - 1] != 0
         else ptr == 0 <==> HEADER + size > s.cfg.pageSize || AllRefuse(d, size)
  {
    DrainContract(s, queue, 0, s.cfg.sizeClass != 0);
    var d := Drain(s, queue, 0, s.cfg.sizeClass != 0).0;
    InvUsable(d);
    SearchExact(d, size);
  }

  // What clients hold: handed out and not put in the queue.
  ghost function Held(s: Seg, queue: seq<nat>): set<nat> {
    LivePtrs(s) - set q | q in queue
  }

  // The owner's allocation adds at most the pointer it returns to what clients hold, and that pointer
  // was not held before.
  lemma LocalContract(s: Seg, queue: seq<nat>, size: nat)
    requires Inv(s) && QueueOk(s, queue, 0)
    ensures var (t, ptr) := AllocateLocal(s, queue, size);
      && Inv(t) && t.cfg == s.cfg && Bytes(t) <= Bytes(s)
      && (|t.slots| >= |s.slots| || |t.slots| >= s.cfg.threshold)
      && (ptr == 0 ==> Held(t, []) == Held(s, queue))
      && (ptr != 0 ==> ptr !in Held(s, queue) && Held(t, []) == Held(s, queue) + {ptr})
  {
    var keepFirst := s.cfg.sizeClass != 0;
    var (t, kept) := Drain(s, queue, 0, keepFirst);
    DrainContract(s, queue, 0, keepFirst);
    DrainBytes(s, queue, 0, keepFirst);
    InvUsable(t);
    TryAllocateContract(t, size);
    SameBytes(t, TryAllocate(t, size).0);
    assert Held(t, []) == LivePtrs(t);
    if kept != 0 {
      assert kept in queue && kept in LivePtrs(s);
    }
  }

  // ---- Bytes only go back to the system ----

  lemma DeallocateBytes(s: Seg, ptr: nat)
    requires Inv(s) && ptr in LivePtrs(s)
    ensures Bytes(Deallocate(s, ptr)) <= Bytes(s)
  {
    var k := LiveSomewhere(s, ptr);
    LiveIndex(s, k, ptr);
    var w := WithPage(s, k, P.Deallocate(s.slots[k].page, ptr));
    assert GoodSlot(s, k);
    P.DeallocateContract(s.slots[k].page, ptr);
    ReplacePage(s, w, k);
    SameBytes(s, w);
    RemovedBytes(w, k);
    SameBytes(w, w.(slots := w.slots[k := w.slots[k].(isUsed := false)]));
  }

  lemma {:induction false} DrainBytes(s: Seg, queue: seq<nat>, kept: nat, keepFirst: bool)
    requires Inv(s) && QueueOk(s, queue, kept)
    ensures Bytes(Drain(s, queue, kept, keepFirst).0) <= Bytes(s)
    decreases |queue|
  {
    if queue != [] {
      var n := |queue| - 1;
      if keepFirst && kept == 0 {
        PopKeeps(s, queue);
        DrainBytes(s, queue[..n], queue[n], keepFirst);
      } else {
        PopFrees(s, queue, kept);
        DeallocateBytes(s, queue[n]);
        DrainBytes(Deallocate(s, queue[n]), queue[..n], kept, keepFirst);
      }
    }
  }
}
