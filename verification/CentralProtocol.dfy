// The central heap under any number of threads that allocate and free at the same time. A part's lock makes its
// allocate, its look-up and its deallocate one step each; what a freeing thread reads without a lock, a page
// header and the head of the chosen part, is a step of its own.
module CentralProtocol {
  import opened Arith
  import opened Words
  import opened Bits
  import opened Pow2Log2
  import opened ArenaModel
  import opened SegmentSpec
  import opened SegmentTheorems
  import opened SegmentLookup
  import opened SegmentList
  import opened SegmentDrain
  import opened HeapSpec

  // How far a thread inside deallocate has come with its pointer.
  datatype Stage =
    | Small                // the big-object bin does not know the pointer
    | At(part: nat)        // a part is chosen, its head not read yet
    | Entered(part: nat)   // that part has pages; its lock comes next

  // The collections are type parameters so that the verifier does not rank a state above its parts.
  datatype StateOf<P, H, R> = State(
    parts: P,         // the bins and the big-object bin
    held: H,          // pointers that clients hold and have not begun to free
    routes: R,        // pointers on their way to a part
    lost: H)          // pointers dropped by a part without pages

  type State = StateOf<seq<Part>, set<nat>, map<nat, Stage>>

  datatype Step =
    | Allocate(k: nat, size: nat, buffer: nat)   // part k's allocate; buffer is the arena's answer, 0 for none
    | AskBig(p: nat)                             // a client enters deallocate(p): is p the big-object bin's?
    | ReadHeader(p: nat)                         // read the size class in the page header at the masked address
    | ReadHead(p: nat)                           // the chosen part's head is read
    | Free(p: nat)                               // the chosen part frees the pointer

  // The bytes that growth asks of the arena.
  ghost function GrowthLength(s: Seg, size: nat): nat
    requires Countable(s.cfg, size)
  {
    var n := DesiredPages(s.cfg, |s.slots|, size);
    ProductMonotone(0, n, s.cfg.pageSize);
    n * s.cfg.pageSize
  }

  // The new pages asked of the arena, which answers with memory of nobody's; bins get aligned memory.
  ghost predicate Answered(l: Layout, st: State, k: nat, size: nat, buffer: nat)
    requires k < |st.parts|
  {
    var s := st.parts[k].seg;
    buffer != 0 ==>
      && Countable(s.cfg, size) && buffer % 4096 == 0 && (k != BIG ==> Divisible(buffer, s.cfg.pageSize))
      && buffer + GrowthLength(s, size) <= WORD_LIMIT && Range(buffer, GrowthLength(s, size)) !! HeapBytes(st.parts)
  }

  // The one request that is excluded would divide by zero.
  ghost predicate Enabled(l: Layout, st: State, step: Step) {
    match step
    case Allocate(k, size, buffer) =>
      && k < |st.parts| && SegmentSpec.Inv(st.parts[k].seg) && AllUsable(st.parts[k].seg)
      && !DividesByZero(st.parts[k].seg, size) && Answered(l, st, k, size, buffer)
    case AskBig(p) => p in st.held
    case ReadHeader(p) => p in st.routes && st.routes[p].Small?
    case ReadHead(p) => p in st.routes && st.routes[p].At? && st.routes[p].part < |st.parts|
    case Free(p) => p in st.routes && st.routes[p].Entered? && st.routes[p].part < |st.parts|
  }

  // The pointer a step hands out, 0 if it hands out none.
  ghost function Returned(l: Layout, st: State, step: Step): nat
    requires Enabled(l, st, step)
  {
    if step.Allocate? then AllocateUnbounded(st.parts[step.k].seg, step.size, step.buffer).1 else 0
  }

  ghost function Apply(l: Layout, st: State, step: Step): State
    requires |st.parts| == PART_COUNT && 0 < l.small < WORD_LIMIT && Enabled(l, st, step)
  {
    match step
    case Allocate(k, size, buffer) =>
      var (t, ptr) := AllocateUnbounded(st.parts[k].seg, size, buffer);
      st.(parts := st.parts[k := Part(t, [])], held := if ptr == 0 then st.held else st.held + {ptr})
    case AskBig(p) =>
      st.(held := st.held - {p}, routes := st.routes[p := if p in Bytes(st.parts[BIG].seg) then At(BIG) else Small])
    case ReadHeader(p) =>
      var sizeClass := ClassAt(st.parts, MaskedPage(p, l.small), 0);
      st.(routes := st.routes[p := At(BinIndex(if sizeClass < WORD_LIMIT then sizeClass else 0))])
    case ReadHead(p) =>
      var j := st.routes[p].part;
      if st.parts[j].seg.slots == [] then st.(routes := st.routes - {p}, lost := st.lost + {p})
      else st.(routes := st.routes[p := Entered(j)])
    case Free(p) =>
      var j := st.routes[p].part;
      st.(routes := st.routes - {p}, parts := st.parts[j := Part(Deallocate(st.parts[j].seg, p), [])])
  }

  // ---- The invariant ----

  ghost predicate StageOk(i: nat, stage: Stage) {
    match stage
    case Small => i < BIG
    case At(j) => j == i
    case Entered(j) => j == i
  }

  // A pointer on its way still belongs to the part it came from, and that is where it is going.
  ghost predicate RouteOk(st: State, p: nat) {
    p in st.routes ==> exists i: nat :: HeldBy(st.parts, i, p) && StageOk(i, st.routes[p])
  }

  // Every live pointer is with exactly one client, inside or outside of deallocate, and none is lost.
  ghost predicate Sound(l: Layout, st: State) {
    && !l.local && l.small < WORD_LIMIT && IsPow2(l.small)
    && HeapSpec.Inv(l, st.parts)
    && HeapHeld(st.parts) == st.held + st.routes.Keys && st.held !! st.routes.Keys && st.lost == {}
    && forall p: nat :: RouteOk(st, p)
  }

  lemma RouteKept(st: State, t: State, p: nat)
    requires RouteOk(st, p) && (p in t.routes ==> p in st.routes && t.routes[p] == st.routes[p])
    requires forall i: nat :: HeldBy(st.parts, i, p) ==> HeldBy(t.parts, i, p)
    ensures RouteOk(t, p)
  {
    if p in t.routes {
      var i: nat :| HeldBy(st.parts, i, p) && StageOk(i, st.routes[p]);
      assert HeldBy(t.parts, i, p);
    }
  }

  // ---- Every step keeps it ----

  lemma GoodAnswer(l: Layout, st: State, k: nat, size: nat, buffer: nat)
    requires HeapSpec.Inv(l, st.parts) && k < PART_COUNT && Answered(l, st, k, size, buffer) && buffer != 0
    ensures GoodBuffer(st.parts[k].seg, buffer, DesiredPages(st.parts[k].seg.cfg, |st.parts[k].seg.slots|, size))
  {
    assert PartAt(l, st.parts, k);
    var s := st.parts[k].seg;
    OneAndOthers(st.parts, k);
    DesiredCount(s.cfg, |s.slots|, size);
    RegionApart(s, HeapBytes(st.parts), buffer, DesiredPages(s.cfg, |s.slots|, size));
  }

  // Part k's memory after its allocate overlaps no other part.
  lemma AllocateBytes(l: Layout, st: State, k: nat, size: nat, buffer: nat)
    requires HeapSpec.Inv(l, st.parts) && k < PART_COUNT && Enabled(l, st, Allocate(k, size, buffer))
    ensures var s, t := st.parts[k].seg, AllocateUnbounded(st.parts[k].seg, size, buffer).0;
      var owned := HeapBytes(st.parts);
      owned - Bytes(s) + Bytes(t) - Bytes(t) == owned - Bytes(s)
  {
    var s := st.parts[k].seg;
    OneAndOthers(st.parts, k);
    if buffer != 0 {
      GoodAnswer(l, st, k, size, buffer);
    }
    UnboundedBytes(s, size, buffer);
  }

  lemma AllocatePart(l: Layout, st: State, k: nat, size: nat, buffer: nat)
    requires HeapSpec.Inv(l, st.parts) && !l.local && k < PART_COUNT && Enabled(l, st, Allocate(k, size, buffer))
    ensures var (t, ptr) := AllocateUnbounded(st.parts[k].seg, size, buffer);
      && PartOk(l, k, Part(t, [])) && Gave(Held(st.parts[k].seg, st.parts[k].queue), Held(t, []), ptr)
  {
    assert PartAt(l, st.parts, k);
    var (t, ptr) := AllocateUnbounded(st.parts[k].seg, size, buffer);
    if buffer != 0 {
      GoodAnswer(l, st, k, size, buffer);
    }
    if k != BIG {
      AlignedUnbounded(st.parts[k].seg, size, buffer);
    }
    UnboundedPart(l, k, st.parts[k], size, buffer, t, ptr);
  }

  lemma AllocateKeepsInv(l: Layout, st: State, k: nat, size: nat, buffer: nat)
    requires Sound(l, st) && Enabled(l, st, Allocate(k, size, buffer))
    ensures Sound(l, Apply(l, st, Allocate(k, size, buffer)))
    ensures Gave(HeapHeld(st.parts), HeapHeld(Apply(l, st, Allocate(k, size, buffer)).parts),
      Returned(l, st, Allocate(k, size, buffer)))
    ensures HeapBytes(Apply(l, st, Allocate(k, size, buffer)).parts) - HeapBytes(st.parts)
         <= Bytes(Apply(l, st, Allocate(k, size, buffer)).parts[k].seg) - Bytes(st.parts[k].seg)
  {
    var (t, ptr) := AllocateUnbounded(st.parts[k].seg, size, buffer);
    var u := Apply(l, st, Allocate(k, size, buffer));
    AllocatePart(l, st, k, size, buffer);
    AllocateBytes(l, st, k, size, buffer);
    var owned := HeapBytes(st.parts);
    OneAndOthers(st.parts, k);
    PartServed(l, st.parts, k, Part(t, []), owned, owned - Bytes(st.parts[k].seg) + Bytes(t), ptr);
    forall p: nat ensures RouteOk(u, p) {
      RouteKept(st, u, p);
    }
  }

  lemma AskBigKeepsInv(l: Layout, st: State, p: nat)
    requires Sound(l, st) && p in st.held
    ensures Sound(l, Apply(l, st, AskBig(p)))
  {
    var t := Apply(l, st, AskBig(p));
    HeldSomewhere(st.parts, p);
    var i: nat :| HeldBy(st.parts, i, p);
    BigRouting(l, st.parts, i, p);
    assert HeldBy(t.parts, i, p) && StageOk(i, t.routes[p]);
    forall q: nat ensures RouteOk(t, q) {
      if q != p {
        RouteKept(st, t, q);
      }
    }
  }

  lemma ReadHeaderKeepsInv(l: Layout, st: State, p: nat)
    requires Sound(l, st) && Enabled(l, st, ReadHeader(p))
    ensures Sound(l, Apply(l, st, ReadHeader(p)))
  {
    var t := Apply(l, st, ReadHeader(p));
    assert RouteOk(st, p);
    var i: nat :| HeldBy(st.parts, i, p) && StageOk(i, st.routes[p]);
    ClassOfOwner(l, st.parts, i, p);
    BinOfSizeClass(i);
    assert HeldBy(t.parts, i, p) && StageOk(i, t.routes[p]);
    forall q: nat ensures RouteOk(t, q) {
      if q != p {
        RouteKept(st, t, q);
      }
    }
  }

  // The part that is reached is the pointer's own, and it has pages as long as the pointer is not freed.
  lemma RoutedRight(l: Layout, st: State, p: nat) returns (i: nat)
    requires Sound(l, st) && p in st.routes && !st.routes[p].Small?
    ensures HeldBy(st.parts, i, p) && st.routes[p].part == i < PART_COUNT && st.parts[i].seg.slots != []
  {
    assert RouteOk(st, p);
    i :| HeldBy(st.parts, i, p) && StageOk(i, st.routes[p]);
    HeldInside(l, st.parts, i, p);
  }

  lemma ReadHeadKeepsInv(l: Layout, st: State, p: nat)
    requires Sound(l, st) && Enabled(l, st, ReadHead(p))
    ensures Sound(l, Apply(l, st, ReadHead(p)))
  {
    var t := Apply(l, st, ReadHead(p));
    var i := RoutedRight(l, st, p);
    assert HeldBy(t.parts, i, p) && StageOk(i, t.routes[p]);
    forall q: nat ensures RouteOk(t, q) {
      if q != p {
        RouteKept(st, t, q);
      }
    }
  }

  lemma FreeKeepsInv(l: Layout, st: State, p: nat)
    requires Sound(l, st) && Enabled(l, st, Free(p))
    ensures Sound(l, Apply(l, st, Free(p)))
    ensures HeapBytes(Apply(l, st, Free(p)).parts) <= HeapBytes(st.parts)
  {
    var t := Apply(l, st, Free(p));
    var i := RoutedRight(l, st, p);
    var s := st.parts[i].seg;
    assert PartAt(l, st.parts, i);
    HeldInside(l, st.parts, i, p);
    if i != BIG {
      AlignedDeallocate(s, p);
    }
    FreedPart(l, i, st.parts[i], p, Deallocate(s, p), []);
    var owned := HeapBytes(st.parts);
    OneAndOthers(st.parts, i);
    PartFreed(l, st.parts, i, t.parts[i], owned, owned - (Bytes(s) - Bytes(t.parts[i].seg)), p);
    forall q: nat ensures RouteOk(t, q) {
      if q != p {
        RouteKept(st, t, q);
      }
    }
  }

  lemma StepKeepsInv(l: Layout, st: State, step: Step)
    requires Sound(l, st) && Enabled(l, st, step)
    ensures Sound(l, Apply(l, st, step))
  {
    match step
    case Allocate(k, size, buffer) => AllocateKeepsInv(l, st, k, size, buffer);
    case AskBig(p) => AskBigKeepsInv(l, st, p);
    case ReadHeader(p) => ReadHeaderKeepsInv(l, st, p);
    case ReadHead(p) => ReadHeadKeepsInv(l, st, p);
    case Free(p) => FreeKeepsInv(l, st, p);
  }

  // The pages that a step can add are those of the arena's answer.
  ghost function NewBytes(l: Layout, st: State, step: Step): set<nat>
    requires Enabled(l, st, step)
  {
    if step.Allocate? && step.buffer != 0 then Range(step.buffer, GrowthLength(st.parts[step.k].seg, step.size)) else {}
  }

  lemma StepBytes(l: Layout, st: State, step: Step)
    requires Sound(l, st) && Enabled(l, st, step)
    ensures HeapBytes(Apply(l, st, step).parts) <= HeapBytes(st.parts) + NewBytes(l, st, step)
  {
    match step
    case Allocate(k, size, buffer) =>
      AllocateKeepsInv(l, st, k, size, buffer);
      if buffer != 0 {
        GoodAnswer(l, st, k, size, buffer);
      }
      UnboundedBytes(st.parts[k].seg, size, buffer);
    case Free(p) => FreeKeepsInv(l, st, p);
    case _ =>
  }

  // A pointer handed out was with no client and on no way back.
  lemma ReturnedWasFree(l: Layout, st: State, step: Step)
    requires Sound(l, st) && Enabled(l, st, step) && Returned(l, st, step) != 0
    ensures var p := Returned(l, st, step); p !in st.held && p !in st.routes && p in Apply(l, st, step).held
  {
    AllocateKeepsInv(l, st, step.k, step.size, step.buffer);
  }

  // ---- Whole runs ----

  ghost predicate StepOk(l: Layout, states: seq<State>, steps: seq<Step>, i: nat)
    requires |states| == |steps| + 1
  {
    i < |steps| ==>
      && |states[i].parts| == PART_COUNT && 0 < l.small < WORD_LIMIT
      && Enabled(l, states[i], steps[i]) && states[i + 1] == Apply(l, states[i], steps[i])
  }

  // A central heap that has handed out nothing.
  ghost predicate Initial(l: Layout, st: State) {
    && !l.local && l.small < WORD_LIMIT && IsPow2(l.small)
    && HeapSpec.Inv(l, st.parts) && HeapHeld(st.parts) == {} && st == State(st.parts, {}, map[], {})
  }

  ghost predicate Run(l: Layout, states: seq<State>, steps: seq<Step>) {
    && |states| == |steps| + 1 && Initial(l, states[0])
    && forall i: nat :: StepOk(l, states, steps, i)
  }

  // Over every interleaving of allocating and freeing threads.
  lemma {:induction false} RunKeepsInv(l: Layout, states: seq<State>, steps: seq<Step>, n: nat)
    requires Run(l, states, steps) && n < |states|
    ensures Sound(l, states[n])
  {
    if n == 0 {
      forall p: nat ensures RouteOk(states[0], p) {
      }
    } else {
      RunKeepsInv(l, states, steps, n - 1);
      assert StepOk(l, states, steps, n - 1);
      StepKeepsInv(l, states[n - 1], steps[n - 1]);
    }
  }

  // ---- Serving and the end of a free ----

  // A locked allocation that needs no memory, or gets it, serves by the size alone.
  lemma AllocateServes(l: Layout, st: State, k: nat, size: nat, buffer: nat)
    requires Sound(l, st) && k < PART_COUNT && Enabled(l, st, Allocate(k, size, buffer))
    requires buffer != 0 || !Grows(st.parts[k].seg, size)
    ensures Returned(l, st, Allocate(k, size, buffer)) != 0 <==> PartServes(l, k, size)
  {
    assert PartAt(l, st.parts, k);
    if buffer != 0 {
      GoodAnswer(l, st, k, size, buffer);
    }
    UnboundedContract(st.parts[k].seg, size, buffer);
  }

  // How many more steps the thread that frees p takes at most.
  ghost function StepsLeft(st: State, p: nat): nat {
    if p !in st.routes then 0
    else
      match st.routes[p]
      case Small => 3
      case At(_) => 2
      case Entered(_) => 1
  }

  ghost predicate FreesNext(step: Step, p: nat) {
    step == ReadHeader(p) || step == ReadHead(p) || step == Free(p)
  }

  // It can always take one, and every one of them brings it nearer to the end; nobody else's step throws it back.
  lemma FreeAdvances(l: Layout, st: State, step: Step, p: nat)
    requires Sound(l, st) && Enabled(l, st, step) && step != AskBig(p)
    ensures StepsLeft(Apply(l, st, step), p) <= StepsLeft(st, p)
    ensures FreesNext(step, p) ==> StepsLeft(Apply(l, st, step), p) < StepsLeft(st, p)
  {
    if step.ReadHead? {
      var i := RoutedRight(l, st, step.p);
    }
  }

  lemma FreeNeverStuck(l: Layout, st: State, p: nat) returns (step: Step)
    requires Sound(l, st) && StepsLeft(st, p) > 0
    ensures Enabled(l, st, step) && FreesNext(step, p)
  {
    match st.routes[p]
    case Small => step := ReadHeader(p);
    case At(_) =>
      var i := RoutedRight(l, st, p);
      step := ReadHead(p);
    case Entered(_) =>
      var i := RoutedRight(l, st, p);
      step := Free(p);
  }

  // ---- A free on its own ----

  ghost function NextStep(st: State, p: nat): Step
    requires p in st.routes
  {
    match st.routes[p]
    case Small => ReadHeader(p)
    case At(_) => ReadHead(p)
    case Entered(_) => Free(p)
  }

  // The freeing thread runs on to its end with nobody interfering.
  ghost function FreeRun(l: Layout, st: State, p: nat): State
    requires Sound(l, st)
    decreases StepsLeft(st, p)
  {
    if p !in st.routes then st
    else
      FreeNext(l, st, p);
      FreeRun(l, Apply(l, st, NextStep(st, p)), p)
  }

  lemma FreeNext(l: Layout, st: State, p: nat)
    requires Sound(l, st) && p in st.routes
    ensures Enabled(l, st, NextStep(st, p)) && Sound(l, Apply(l, st, NextStep(st, p)))
    ensures StepsLeft(Apply(l, st, NextStep(st, p)), p) < StepsLeft(st, p)
  {
    var step := FreeNeverStuck(l, st, p);
    StepKeepsInv(l, st, NextStep(st, p));
    FreeAdvances(l, st, NextStep(st, p), p);
  }

  // It leaves what the heap's own deallocate leaves: the pointer's part has taken it back.
  lemma AloneIsDeallocate(l: Layout, st: State, p: nat) returns (k: nat)
    requires Sound(l, st) && p in st.held
    ensures HeldBy(st.parts, k, p) && Sound(l, Apply(l, st, AskBig(p)))
    ensures FreeRun(l, Apply(l, st, AskBig(p)), p).parts == st.parts[k := TakenBack(l, st.parts[k], p)]
  {
    HeldSomewhere(st.parts, p);
    k :| HeldBy(st.parts, k, p);
    HeldInside(l, st.parts, k, p);
    StepKeepsInv(l, st, AskBig(p));
    var t := Apply(l, st, AskBig(p));
    if t.routes[p].Small? {
      FreeNext(l, t, p);
      t := Apply(l, t, ReadHeader(p));
    }
    assert t.parts == st.parts && Sound(l, t);
    EndsAtPart(l, t, p, k);
  }

  lemma EndsAtPart(l: Layout, st: State, p: nat, k: nat)
    requires Sound(l, st) && p in st.routes && st.routes[p].At? && HeldBy(st.parts, k, p)
    ensures FreeRun(l, st, p).parts == st.parts[k := TakenBack(l, st.parts[k], p)]
  {
    var i := RoutedRight(l, st, p);
    HeldInside(l, st.parts, k, p);
    assert PartAt(l, st.parts, k);
    FreeNext(l, st, p);
    var t := Apply(l, st, ReadHead(p));
    FreeNext(l, t, p);
    var u := Apply(l, t, Free(p));
    assert p !in u.routes;
    assert FreeRun(l, t, p) == FreeRun(l, u, p) == u;
  }
}
