// Freeing from other threads while the owner allocates: all interleavings on one bounded segment.
// Queue operations are atomic because they take the queue's lock; pages belong to the owner alone.
module Protocol {
  import opened Sequences
  import opened SegmentSpec
  import opened SegmentTheorems
  import opened SegmentDrain
  import P = LogicalPages
  import F = FixedPageSpec

  // Where the owner is inside allocate; kept and popped are 0 for none.
  datatype Phase =
    | Idle
    | Draining(size: nat, kept: nat, popped: nat)
    | Searching(size: nat)

  // The sets are type parameters so that the verifier does not rank a state above its parts.
  datatype StateOf<S, Q, H> = State(
    seg: S,
    queue: Q,        // next pointer to pop last
    held: H,         // pointers that clients hold
    freeing: H,      // pointers whose deallocate call has read the head but not pushed yet
    phase: Phase)

  type State = StateOf<Seg, seq<nat>, set<nat>>

  datatype Step =
    | CheckHead(p: nat)    // any thread enters deallocate(p) and reads the head
    | Push(p: nat)         // that thread pushes p
    | Begin(size: nat)     // the owner enters allocate(size)
    | Pop                  // the owner pops a pointer
    | Free                 // the owner frees the pointer it popped
    | DrainDone            // the owner finds the queue empty
    | Search               // the owner asks the pages

  predicate Enabled(st: State, step: Step) {
    match step
    case CheckHead(p) => p in st.held
    case Push(p) => p in st.freeing
    case Begin(_) => st.phase.Idle?
    case Pop => st.phase.Draining? && st.phase.popped == 0 && st.queue != []
    case Free => st.phase.Draining? && st.phase.popped != 0
    case DrainDone => st.phase.Draining? && st.phase.popped == 0 && st.queue == []
    case Search => st.phase.Searching? && ValidConfig(st.seg.cfg) && AllUsable(st.seg)
  }

  function Apply(st: State, step: Step): State
    requires Enabled(st, step)
  {
    match step
    case CheckHead(p) =>
      if st.seg.slots == [] then st.(held := st.held - {p})
      else st.(held := st.held - {p}, freeing := st.freeing + {p})
    case Push(p) => st.(freeing := st.freeing - {p}, queue := st.queue + [p])
    case Begin(size) => st.(phase := Draining(size, 0, 0))
    case Pop => ApplyPop(st)
    case Free => st.(seg := Deallocate(st.seg, st.phase.popped), phase := st.phase.(popped := 0))
    case DrainDone =>
      if st.phase.kept != 0 then st.(held := st.held + {st.phase.kept}, phase := Idle)
      else st.(phase := Searching(st.phase.size))
    case Search =>
      var (t, ptr) := TryAllocate(st.seg, st.phase.size);
      st.(seg := t, held := if ptr == 0 then st.held else st.held + {ptr}, phase := Idle)
  }

  // With one size class, the first pointer popped is kept for the caller instead of being freed.
  function ApplyPop(st: State): State
    requires Enabled(st, Pop)
  {
    var n := |st.queue| - 1;
    var p := st.queue[n];
    st.(queue := st.queue[..n],
        phase := if st.seg.cfg.sizeClass != 0
          && st.phase.kept == 0 then st.phase.(kept := p) else st.phase.(popped := p))
  }

  // The pointer a step hands to the owner's caller, 0 if it hands out none.
  function Returned(st: State, step: Step): nat
    requires Enabled(st, step)
  {
    match step
    case DrainDone => st.phase.kept
    case Search => TryAllocate(st.seg, st.phase.size).1
    case _ => 0
  }

  // ---- The invariant ----

  function One(b: bool): nat {
    if b then 1 else 0
  }

  // In how many places a pointer is: with a client, on its way into the queue, in the queue, kept for
  // the caller, or popped and about to be freed.
  function Places(st: State, p: nat): nat {
    One(p in st.held) + One(p in st.freeing) + multiset(st.queue)[p]
    + One(st.phase.Draining? && p == st.phase.kept) + One(st.phase.Draining? && p == st.phase.popped)
  }

  // A pointer that is live is in exactly one place, any other in none.
  ghost predicate Settled(st: State, p: nat) {
    p != 0 ==> Places(st, p) == One(p in LivePtrs(st.seg))
  }

  ghost predicate Inv(st: State) {
    && SegmentSpec.Inv(st.seg)
    && 0 !in st.held && 0 !in st.freeing && 0 !in st.queue
    && forall p: nat :: Settled(st, p)
  }

  lemma LivePositive(s: Seg)
    requires SegmentSpec.Inv(s)
    ensures 0 !in LivePtrs(s)
    ensures s.slots == [] ==> LivePtrs(s) == {}
  {
    if 0 in LivePtrs(s) {
      var i := LiveSomewhere(s, 0);
      LiveIndex(s, i, 0);
    }
  }

  // ---- Every step keeps it ----

  // A client never frees into a segment without pages, so no pointer is dropped.
  lemma FreedIsNeverDropped(st: State, p: nat)
    requires Inv(st) && p in st.held
    ensures st.seg.slots != [] && p in LivePtrs(st.seg)
  {
    assert Settled(st, p);
    LivePositive(st.seg);
  }

  lemma ClientStep(st: State, p: nat)
    requires Inv(st)
    ensures p in st.held ==> Inv(Apply(st, CheckHead(p)))
    ensures p in st.freeing ==> Inv(Apply(st, Push(p)))
  {
    if p in st.held {
      FreedIsNeverDropped(st, p);
      forall x: nat ensures Settled(Apply(st, CheckHead(p)), x) {
        assert Settled(st, x);
      }
    }
    if p in st.freeing {
      forall x: nat ensures Settled(Apply(st, Push(p)), x) {
        assert Settled(st, x);
      }
    }
  }

  lemma PopStep(st: State)
    requires Inv(st) && Enabled(st, Pop)
    ensures Inv(Apply(st, Pop))
  {
    var n := |st.queue| - 1;
    assert st.queue == st.queue[..n] + [st.queue[n]];
    assert st.queue[n] in st.queue;
    forall x: nat ensures Settled(Apply(st, Pop), x) {
      assert Settled(st, x);
    }
  }

  lemma PoppedIsLive(st: State)
    requires Inv(st) && Enabled(st, Free)
    ensures st.phase.popped in LivePtrs(st.seg)
  {
    assert Settled(st, st.phase.popped);
  }

  lemma FreeStep(st: State)
    requires Inv(st) && Enabled(st, Free)
    ensures Inv(Apply(st, Free))
  {
    PoppedIsLive(st);
    DeallocateContract(st.seg, st.phase.popped);
    forall x: nat ensures Settled(Apply(st, Free), x) {
      assert Settled(st, x);
    }
  }

  lemma HandOutStep(st: State, step: Step)
    requires Inv(st) && Enabled(st, step) && (step.DrainDone? || step.Search?)
    ensures Inv(Apply(st, step))
  {
    LivePositive(st.seg);
    if step.Search? {
      TryAllocateContract(st.seg, st.phase.size);
    }
    forall x: nat ensures Settled(Apply(st, step), x) {
      assert Settled(st, x);
    }
  }

  lemma StepKeepsInv(st: State, step: Step)
    requires Inv(st) && Enabled(st, step)
    ensures Inv(Apply(st, step))
  {
    match step
    case CheckHead(p) => ClientStep(st, p);
    case Push(p) => ClientStep(st, p);
    case Begin(_) =>
      forall x: nat ensures Settled(Apply(st, step), x) {
        assert Settled(st, x);
      }
    case Pop => PopStep(st);
    case Free => FreeStep(st);
    case DrainDone => HandOutStep(st, step);
    case Search => HandOutStep(st, step);
  }

  // A pointer handed out was not with any client, nor on its way back to the segment.
  lemma ReturnedWasFree(st: State, step: Step)
    requires Inv(st) && Enabled(st, step) && Returned(st, step) != 0
    ensures var p := Returned(st, step);
      p !in st.held && p !in st.freeing && p !in st.queue && p in Apply(st, step).held
  {
    assert Settled(st, Returned(st, step));
    if step.Search? {
      TryAllocateContract(st.seg, st.phase.size);
    }
  }

  // The owner is never stuck inside allocate.
  lemma OwnerNeverStuck(st: State)
    requires Inv(st) && !st.phase.Idle?
    ensures Enabled(st, Pop) || Enabled(st, Free) || Enabled(st, DrainDone) || Enabled(st, Search)
  {
    InvUsable(st.seg);
  }

  // ---- Whole runs ----

  ghost predicate StepOk(states: seq<State>, steps: seq<Step>, i: nat)
    requires |states| == |steps| + 1
  {
    i < |steps| ==> Enabled(states[i], steps[i]) && states[i + 1] == Apply(states[i], steps[i])
  }

  // Any interleaving of the owner and the clients, from a segment that has handed out nothing.
  ghost predicate Run(states: seq<State>, steps: seq<Step>) {
    && |states| == |steps| + 1
    && SegmentSpec.Inv(states[0].seg) && LivePtrs(states[0].seg) == {}
    && states[0] == State(states[0].seg, [], {}, {}, Idle)
    && forall i: nat :: StepOk(states, steps, i)
  }

  lemma {:induction false} RunKeepsInv(states: seq<State>, steps: seq<Step>, i: nat)
    requires Run(states, steps) && i < |states|
    ensures Inv(states[i])
  {
    if i == 0 {
      forall p: nat ensures Settled(states[0], p) {
      }
    } else {
      RunKeepsInv(states, steps, i - 1);
      assert StepOk(states, steps, i - 1);
      StepKeepsInv(states[i - 1], steps[i - 1]);
    }
  }

  ghost predicate FreedBetween(steps: seq<Step>, i: nat, j: nat, p: nat) {
    exists k: nat :: EntersFree(steps, i, k, j, p)
  }

  ghost predicate EntersFree(steps: seq<Step>, i: nat, k: nat, j: nat, p: nat) {
    i < k < j <= |steps| && steps[k] == CheckHead(p)
  }

  // A held pointer stays held until its client frees it.
  lemma {:induction false} HeldUntilFreed(states: seq<State>, steps: seq<Step>, i: nat, j: nat, p: nat)
    requires Run(states, steps) && i < j < |states| && p in states[i + 1].held
    ensures p in states[j].held || FreedBetween(steps, i, j, p)
    decreases j
  {
    if j > i + 1 {
      HeldUntilFreed(states, steps, i, j - 1, p);
      assert StepOk(states, steps, j - 1);
      if steps[j - 1] == CheckHead(p) {
        assert EntersFree(steps, i, j - 1, j, p);
      } else if FreedBetween(steps, i, j - 1, p) {
        var k: nat :| EntersFree(steps, i, k, j - 1, p);
        assert EntersFree(steps, i, k, j, p);
      }
    }
  }

  // No pointer is handed out twice without a client freeing it in between.
  lemma NeverHandedOutTwice(states: seq<State>, steps: seq<Step>, i: nat, j: nat)
    requires Run(states, steps) && i < j < |steps|
    requires Enabled(states[i], steps[i]) && Enabled(states[j], steps[j])
    requires Returned(states[i], steps[i]) == Returned(states[j], steps[j]) != 0
    ensures FreedBetween(steps, i, j, Returned(states[i], steps[i]))
  {
    var p := Returned(states[i], steps[i]);
    RunKeepsInv(states, steps, i);
    RunKeepsInv(states, steps, j);
    assert StepOk(states, steps, i);
    ReturnedWasFree(states[i], steps[i]);
    ReturnedWasFree(states[j], steps[j]);
    HeldUntilFreed(states, steps, i, j, p);
  }

  // Over a whole run pages are only ever given back, and never below the threshold.
  lemma {:induction false} PagesOnlyShrink(states: seq<State>, steps: seq<Step>, i: nat)
    requires Run(states, steps) && i < |states|
    ensures states[i].seg.cfg == states[0].seg.cfg
    ensures |states[i].seg.slots| <= |states[0].seg.slots|
    ensures |states[i].seg.slots| == |states[0].seg.slots| || |states[i].seg.slots| >= states[0].seg.cfg.threshold
  {
    if i > 0 {
      PagesOnlyShrink(states, steps, i - 1);
      RunKeepsInv(states, steps, i - 1);
      assert StepOk(states, steps, i - 1);
      var st := states[i - 1];
      if steps[i - 1].Free? {
        PoppedIsLive(st);
        DeallocateContract(st.seg, st.phase.popped);
      } else if steps[i - 1].Search? {
        TryAllocateContract(st.seg, st.phase.size);
      }
    }
  }

  // ---- How long an allocation takes ----

  function Rank(phase: Phase): nat {
    match phase
    case Idle => 0
    case Searching(_) => 1
    case Draining(_, _, popped) => if popped == 0 then 2 else 3
  }

  // Every queued pointer costs the owner a pop and at most one free; then it finds the queue empty and searches.
  function Work(st: State): nat {
    2 * |st.queue| + Rank(st.phase)
  }

  predicate ByOwner(step: Step) {
    !step.CheckHead? && !step.Push?
  }

  function OwnerSteps(steps: seq<Step>, i: nat, j: nat): nat
    requires i <= j <= |steps|
  {
    if i == j then 0 else OwnerSteps(steps, i, j - 1) + One(ByOwner(steps[j - 1]))
  }

  function Pushes(steps: seq<Step>, i: nat, j: nat): nat
    requires i <= j <= |steps|
  {
    if i == j then 0 else Pushes(steps, i, j - 1) + One(steps[j - 1].Push?)
  }

  lemma WorkDone(st: State, step: Step)
    requires Enabled(st, step) && !st.phase.Idle?
    ensures Work(Apply(st, step)) + One(ByOwner(step)) <= Work(st) + 2 * One(step.Push?)
  {
  }

  // While the owner is inside allocate, nothing but a push gives it more to do.
  lemma {:induction false} WorkShrinks(states: seq<State>, steps: seq<Step>, i: nat, j: nat)
    requires Run(states, steps) && i <= j < |states| && forall k :: i <= k < j ==> !states[k].phase.Idle?
    ensures OwnerSteps(steps, i, j) + Work(states[j]) <= Work(states[i]) + 2 * Pushes(steps, i, j)
    decreases j
  {
    if i < j {
      WorkShrinks(states, steps, i, j - 1);
      assert StepOk(states, steps, j - 1);
      WorkDone(states[j - 1], steps[j - 1]);
    }
  }

  // An allocation that begins with step i has taken at most two owner steps for every pointer that was queued
  // then or pushed since, and two more; if it is not over yet, fewer.
  lemma AllocateEnds(states: seq<State>, steps: seq<Step>, i: nat, j: nat)
    requires Run(states, steps) && i < j < |states| && steps[i].Begin?
    requires forall k :: i < k < j ==> !states[k].phase.Idle?
    ensures OwnerSteps(steps, i + 1, j) <= 2 * (|states[i].queue| + Pushes(steps, i + 1, j)) + 2
    ensures OwnerSteps(steps, i + 1, j) == 2 * (|states[i].queue| + Pushes(steps, i + 1, j)) + 2 ==>
      states[j].phase.Idle?
  {
    assert StepOk(states, steps, i);
    WorkShrinks(states, steps, i + 1, j);
  }

  // ---- What the invariant says about pages ----

  // A pointer that is in some place: with a client, on its way back, queued, kept or popped.
  ghost predicate Outstanding(st: State, p: nat) {
    p != 0 && Places(st, p) != 0
  }

  // A page released during a drain holds no pointer that any client holds, that is on its way into
  // the queue, that is queued, or that the owner is about to return.
  lemma ReleasedPageHoldsNothing(st: State, p: nat)
    requires Inv(st) && Enabled(st, Free) && |Apply(st, Free).seg.slots| < |st.seg.slots|
    requires Outstanding(Apply(st, Free), p)
    ensures var k := IndexAt(st.seg.slots, st.seg.cfg.pageSize, st.phase.popped, 0);
      k < |st.seg.slots| && !InPage(st.seg.slots[k], st.seg.cfg.pageSize, p)
      && Apply(st, Free).seg.slots == st.seg.slots[..k] + st.seg.slots[k + 1..]
  {
    PoppedIsLive(st);
    FreeStep(st);
    assert Settled(Apply(st, Free), p);
    var k := LiveSomewhere(st.seg, st.phase.popped);
    LiveIndex(st.seg, k, st.phase.popped);
    ReleasedPageIsEmpty(st.seg, st.phase.popped, p);
  }

  // The outstanding pointers of page k.
  ghost function OutstandingIn(st: State, k: nat): set<nat>
    requires k < |st.seg.slots|
  {
    set p | p in P.LivePtrs(st.seg.slots[k].page) && Outstanding(st, p)
  }

  lemma OutstandingIsLive(st: State, k: nat)
    requires Inv(st) && k < |st.seg.slots|
    ensures OutstandingIn(st, k) == P.LivePtrs(st.seg.slots[k].page)
    ensures forall p: nat ::
      Outstanding(st, p) && InPage(st.seg.slots[k], st.seg.cfg.pageSize, p) <==> p in OutstandingIn(st, k)
  {
    LivePositive(st.seg);
    forall p | p in P.LivePtrs(st.seg.slots[k].page) ensures Outstanding(st, p) {
      assert IsLive(st.seg, k, p);
      assert p in LivePtrs(st.seg);
      assert Settled(st, p);
    }
    forall p: nat
      ensures Outstanding(st, p) && InPage(st.seg.slots[k], st.seg.cfg.pageSize, p) <==> p in OutstandingIn(st, k)
    {
      assert Settled(st, p);
      if Outstanding(st, p) {
        var i := LiveSomewhere(st.seg, p);
        LiveIndex(st.seg, i, p);
        if InPage(st.seg.slots[k], st.seg.cfg.pageSize, p) {
          assert SlotsApart(st.seg, i, k) && SlotsApart(st.seg, k, i);
        }
      }
      if p in OutstandingIn(st, k) {
        LiveIndex(st.seg, k, p);
      }
    }
  }

  // Every chunk of a fixed-size page is in exactly one place or in that page's free list, and the
  // page's used size is the size class times the number of its outstanding chunks.
  lemma ChunkAccounting(st: State, k: nat, a: nat)
    requires Inv(st) && k < |st.seg.slots| && st.seg.cfg.sizeClass != 0
    ensures st.seg.slots[k].page.FixedPage?
    ensures var f := st.seg.slots[k].page.f;
      && (F.IsChunk(f, a) ==> Places(st, a) + One(a in f.free) == 1)
      && (a in f.free ==> F.IsChunk(f, a))
      && (Outstanding(st, a) && InPage(st.seg.slots[k], st.seg.cfg.pageSize, a) ==> F.IsChunk(f, a))
      && f.used == st.seg.cfg.sizeClass * |OutstandingIn(st, k)|
  {
    assert GoodSlot(st.seg, k);
    var f := st.seg.slots[k].page.f;
    F.ChunkPartition(f, a);
    OutstandingIsLive(st, k);
    if F.IsChunk(f, a) {
      F.ChunkInside(f, a);
      assert Settled(st, a);
      assert a in LivePtrs(st.seg) <==> a in f.live by {
        if a in f.live {
          assert IsLive(st.seg, k, a);
        }
        if a in LivePtrs(st.seg) {
          var i := LiveSomewhere(st.seg, a);
          LiveIndex(st.seg, i, a);
          assert SlotsApart(st.seg, i, k) && SlotsApart(st.seg, k, i);
        }
      }
    }
  }

  // ---- The owner on its own ----

  ghost function OwnerStep(st: State): (step: Step)
    requires Inv(st) && !st.phase.Idle?
    ensures Enabled(st, step)
  {
    OwnerNeverStuck(st);
    if st.phase.Searching? then Search
    else if st.phase.popped != 0 then Free
    else if st.queue == [] then DrainDone
    else Pop
  }

  // The owner runs to the end of allocate with nobody interfering.
  ghost function OwnerRun(st: State): State
    requires Inv(st)
    decreases |st.queue|, Rank(st.phase)
  {
    if st.phase.Idle? then st
    else
      StepKeepsInv(st, OwnerStep(st));
      OwnerRun(Apply(st, OwnerStep(st)))
  }

  lemma TwiceInQueue(q: seq<nat>, i: nat, j: nat)
    requires i < j < |q|
    ensures q[i] == q[j] ==> multiset(q)[q[i]] >= 2
  {
    assert q == q[..j] + [q[j]] + q[j + 1..];
    assert q[..j][i] == q[i];
    assert q[i] in multiset(q[..j]);
  }

  // The queue holds live pointers, each once.
  lemma QueueHolds(st: State)
    requires Inv(st)
    ensures QueueOk(st.seg, st.queue, 0)
  {
    forall i | 0 <= i < |st.queue| ensures st.queue[i] > 0 && st.queue[i] in LivePtrs(st.seg) {
      assert st.queue[i] in multiset(st.queue);
      assert Settled(st, st.queue[i]);
    }
    forall i: nat, j: nat ensures Differ(st.queue, i, j) {
      if i < j < |st.queue| {
        assert Settled(st, st.queue[i]);
        TwiceInQueue(st.queue, i, j);
      }
    }
  }

  lemma QueueIsOk(st: State)
    requires Inv(st) && st.phase.Draining?
    ensures QueueOk(st.seg, st.queue, st.phase.kept)
  {
    QueueHolds(st);
    if st.phase.kept != 0 {
      assert Settled(st, st.phase.kept);
    }
  }

  // Where the owner ends up once it has drained down to segment t, having kept a pointer or none.
  ghost function Finished(st: State, t: Seg, kept: nat, size: nat): State
    requires SegmentSpec.Inv(t)
  {
    InvUsable(t);
    if kept != 0 then State(t, [], st.held + {kept}, st.freeing, Idle)
    else
      var (u, ptr) := TryAllocate(t, size);
      State(u, [], if ptr == 0 then st.held else st.held + {ptr}, st.freeing, Idle)
  }

  lemma {:induction false} OwnerDrains(st: State)
    requires Inv(st) && st.phase.Draining? && st.phase.popped == 0
    ensures QueueOk(st.seg, st.queue, st.phase.kept)
    ensures var (t, kept) := Drain(st.seg, st.queue, st.phase.kept, st.seg.cfg.sizeClass != 0);
      SegmentSpec.Inv(t) && OwnerRun(st) == Finished(st, t, kept, st.phase.size)
    decreases |st.queue|
  {
    QueueIsOk(st);
    DrainContract(st.seg, st.queue, st.phase.kept, st.seg.cfg.sizeClass != 0);
    var next := Apply(st, OwnerStep(st));
    StepKeepsInv(st, OwnerStep(st));
    if st.queue == [] {
      if st.phase.kept == 0 {
        InvUsable(next.seg);
        StepKeepsInv(next, Search);
        assert OwnerRun(next) == Apply(next, Search);
      }
    } else if next.phase.popped == 0 {
      OwnerDrains(next);
    } else {
      PopFreed(st);
    }
  }

  lemma {:induction false} PopFreed(st: State)
    requires Inv(st) && Enabled(st, Pop) && Apply(st, Pop).phase.popped != 0
    ensures QueueOk(st.seg, st.queue, st.phase.kept)
    ensures var (t, kept) := Drain(st.seg, st.queue, st.phase.kept, st.seg.cfg.sizeClass != 0);
      SegmentSpec.Inv(t) && OwnerRun(st) == Finished(st, t, kept, st.phase.size)
    decreases |st.queue|, 0
  {
    QueueIsOk(st);
    var n := |st.queue| - 1;
    var popped := Apply(st, Pop);
    StepKeepsInv(st, Pop);
    StepKeepsInv(popped, Free);
    var freed := Apply(popped, Free);
    OwnerDrains(freed);
    PoppedIsLive(popped);
    DeallocateContract(popped.seg, popped.phase.popped);
    assert OwnerRun(st) == OwnerRun(popped);
    assert OwnerRun(popped) == OwnerRun(freed);
  }

  // With no interference, the owner's steps compute what the segment's allocate computes.
  lemma AloneIsAllocate(st: State, size: nat)
    requires Inv(st) && st.phase.Idle?
    ensures Inv(Apply(st, Begin(size))) && QueueOk(st.seg, st.queue, 0)
    ensures var (t, ptr) := AllocateLocal(st.seg, st.queue, size);
      OwnerRun(Apply(st, Begin(size))) == State(t, [], if ptr == 0 then st.held else st.held + {ptr}, st.freeing, Idle)
  {
    StepKeepsInv(st, Begin(size));
    OwnerDrains(Apply(st, Begin(size)));
  }
}
