// Freeing from other threads into a whole bounded heap: while the owner allocates, drains and recycles,
// every freeing thread first finds the right bin by address alone, one memory read at a time.
module HeapProtocol {
  import opened Words
  import opened Bits
  import opened Pow2Log2
  import opened SegmentTheorems
  import opened SegmentLookup
  import opened SegmentList
  import opened SegmentDrain
  import opened HeapSpec
  import S = Protocol

  // How far a thread inside deallocate has come with its pointer.
  datatype Stage =
    | AboveHead            // it compared with the big-object bin's head, and not yet with the end
    | Small                // it decided that the pointer is a small object
    | At(part: nat)        // it has chosen a part, and that part's deallocate has not read its head yet

  // The collections are type parameters so that the verifier does not rank a state above its parts.
  datatype StateOf<P, R, L> = State(
    parts: P,         // the bins and the big-object bin
    routes: R,        // pointers on their way to a part
    lost: L)          // pointers dropped by a part without pages

  type State = StateOf<seq<S.State>, map<nat, Stage>, set<nat>>

  datatype Step =
    | Owner(k: nat, step: S.Step)    // a step of the owner inside part k's allocate
    | AskLow(p: nat)                 // a client enters deallocate(p): is p below the big-object bin's head?
    | AskHigh(p: nat)                // is it below the end of that bin's buffer?
    | ReadHeader(p: nat)             // read the size class in the page header at the masked address
    | ReadHead(p: nat)               // the chosen part reads its head
    | Push(p: nat, k: nat)           // and pushes the pointer

  ghost predicate HeldIn(st: State, k: nat, p: nat) {
    k < |st.parts| && p in st.parts[k].held
  }

  // A client holds p and has not begun to free it.
  ghost predicate AtClient(st: State, p: nat) {
    p !in st.routes && p !in st.lost && exists k: nat :: HeldIn(st, k, p)
  }

  ghost predicate IdleBut(st: State, k: nat) {
    forall j :: 0 <= j < |st.parts| && j != k ==> st.parts[j].phase.Idle?
  }

  ghost predicate Enabled(st: State, step: Step) {
    match step
    case Owner(k, s) => k < |st.parts| && S.ByOwner(s) && S.Enabled(st.parts[k], s) && IdleBut(st, k)
    case AskLow(p) => AtClient(st, p)
    case AskHigh(p) => p in st.routes && st.routes[p].AboveHead?
    case ReadHeader(p) => p in st.routes && st.routes[p].Small?
    case ReadHead(p) => p in st.routes && st.routes[p].At? && st.routes[p].part < |st.parts|
    case Push(p, k) => k < |st.parts| && p in st.parts[k].freeing
  }

  ghost function BigHead(st: State): nat
    requires |st.parts| == PART_COUNT
  {
    AddrAt(st.parts[BIG].seg.slots, 0)
  }

  ghost function Apply(l: Layout, st: State, step: Step): State
    requires |st.parts| == PART_COUNT && 0 < l.small < WORD_LIMIT && Enabled(st, step)
  {
    match step
    case Owner(k, s) => st.(parts := st.parts[k := S.Apply(st.parts[k], s)])
    case AskLow(p) => st.(routes := st.routes[p := if p >= BigHead(st) then AboveHead else Small])
    case AskHigh(p) => st.(routes := st.routes[p := if p < BigHead(st) + l.big then At(BIG) else Small])
    case ReadHeader(p) =>
      var sizeClass := ClassAt(View(st.parts), MaskedPage(p, l.small), 0);
      st.(routes := st.routes[p := At(BinIndex(if sizeClass < WORD_LIMIT then sizeClass else 0))])
    case ReadHead(p) =>
      var j := st.routes[p].part;
      if st.parts[j].seg.slots == [] then st.(routes := st.routes - {p}, lost := st.lost + {p})
      else if p in st.parts[j].held then
        st.(routes := st.routes - {p}, parts := st.parts[j := S.Apply(st.parts[j], S.CheckHead(p))])
      else st.(routes := st.routes - {p}, parts := st.parts[j := st.parts[j].(freeing := st.parts[j].freeing + {p})])
    case Push(p, k) => st.(parts := st.parts[k := S.Apply(st.parts[k], S.Push(p))])
  }

  // ---- The invariant ----

  ghost function View(parts: seq<S.State>): seq<Part> {
    seq(|parts|, i requires 0 <= i < |parts| => Part(parts[i].seg, parts[i].queue))
  }

  ghost predicate BigGone(st: State)
    requires |st.parts| == PART_COUNT
  {
    st.parts[BIG].seg.slots == []
  }

  // Where a pointer on its way from part i may have got to.
  ghost predicate StageOk(l: Layout, st: State, i: nat, p: nat, stage: Stage)
    requires |st.parts| == PART_COUNT
  {
    match stage
    case AboveHead => i == BIG || BigGone(st)
    case Small => i < BIG
    case At(j) => j == i || (j == BIG && BigGone(st) && p < l.big)
  }

  ghost predicate RouteOk(l: Layout, st: State, p: nat)
    requires |st.parts| == PART_COUNT
  {
    p in st.routes ==> p !in st.lost && exists i: nat :: HeldIn(st, i, p) && StageOk(l, st, i, p, st.routes[p])
  }

  // A pointer is lost only if the big-object bin, without pages, took its low address for its own.
  ghost predicate LossOk(l: Layout, st: State, p: nat)
    requires |st.parts| == PART_COUNT
  {
    p in st.lost ==> BigGone(st) && p < l.big && exists i: nat :: i < BIG && HeldIn(st, i, p)
  }

  ghost predicate PartInv(st: State, i: nat) {
    i < |st.parts| ==> S.Inv(st.parts[i])
  }

  ghost predicate Sound(l: Layout, st: State) {
    && |st.parts| == PART_COUNT && l.local && l.small < WORD_LIMIT && IsPow2(l.small)
    && HeapSpec.Inv(l, View(st.parts))
    && (forall i: nat :: PartInv(st, i))
    && (forall p: nat :: RouteOk(l, st, p))
    && (forall p: nat :: LossOk(l, st, p))
    && (exists k: nat :: IdleBut(st, k))
  }

  // What a client holds of part i is held by that part of the heap.
  lemma HeldInView(l: Layout, st: State, i: nat, p: nat)
    requires Sound(l, st) && HeldIn(st, i, p)
    ensures HeldBy(View(st.parts), i, p)
    ensures forall j: nat :: HeldIn(st, j, p) ==> j == i
  {
    InView(l, st, i, p);
    HeldInside(l, View(st.parts), i, p);
    forall j: nat | HeldIn(st, j, p) ensures j == i {
      InView(l, st, j, p);
    }
  }

  lemma InView(l: Layout, st: State, i: nat, p: nat)
    requires Sound(l, st) && HeldIn(st, i, p)
    ensures HeldBy(View(st.parts), i, p)
  {
    assert PartInv(st, i) && S.Settled(st.parts[i], p);
  }

  // ---- Routing, one read at a time ----

  lemma HeadSplits(l: Layout, st: State, i: nat, p: nat)
    requires Sound(l, st) && HeldIn(st, i, p)
    ensures BigGone(st) ==> i < BIG && BigHead(st) == 0
    ensures !BigGone(st) && i == BIG ==> BigHead(st) <= p < BigHead(st) + l.big
    ensures !BigGone(st) && i < BIG ==> p < BigHead(st)
  {
    var ps := View(st.parts);
    HeldInView(l, st, i, p);
    HeldInside(l, ps, i, p);
    assert PartAt(l, ps, i);
    if !BigGone(st) {
      BoundedBigBin(l, ps);
      if i < BIG {
        PartsInOrder(l, i, BIG);
      }
    }
  }

  // The header at the masked address of a small object names its own bin.
  lemma HeaderNamesBin(l: Layout, st: State, i: nat, p: nat)
    requires Sound(l, st) && HeldIn(st, i, p) && i < BIG
    ensures ClassAt(View(st.parts), MaskedPage(p, l.small), 0) == BinSizeClass(i)
  {
    HeldInView(l, st, i, p);
    ClassOfOwner(l, View(st.parts), i, p);
  }

  // ---- Every step keeps the invariant ----

  ghost function PartOf(st: S.State): Part {
    Part(st.seg, st.queue)
  }

  // What the owner's step does to its part: memory is only given back, and no client loses a pointer.
  lemma OwnerStepPart(l: Layout, k: nat, st: S.State, step: S.Step)
    requires ValidLayout(l) && l.local && k < PART_COUNT && S.Inv(st) && PartOk(l, k, PartOf(st))
    requires S.Enabled(st, step) && S.ByOwner(step)
    ensures var t := S.Apply(st, step);
      && S.Inv(t) && PartOk(l, k, PartOf(t)) && Bytes(t.seg) <= Bytes(st.seg)
      && (st.seg.slots == [] ==> t.seg.slots == []) && st.held <= t.held
  {
    var t := S.Apply(st, step);
    S.StepKeepsInv(st, step);
    S.QueueHolds(t);
    match step
    case Free =>
      S.PoppedIsLive(st);
      DeallocateContract(st.seg, st.phase.popped);
      DeallocateBytes(st.seg, st.phase.popped);
      if k != BIG {
        AlignedDeallocate(st.seg, st.phase.popped);
      }
    case Search =>
      TryAllocateContract(st.seg, st.phase.size);
      SameBytes(st.seg, t.seg);
      if k != BIG {
        AlignedTryAllocate(st.seg, st.phase.size);
      }
    case _ =>
  }

  lemma OnePartChanges(l: Layout, parts: seq<S.State>, k: nat, t: S.State)
    requires HeapSpec.Inv(l, View(parts)) && k < PART_COUNT && PartOk(l, k, PartOf(t))
    requires Bytes(t.seg) <= Bytes(parts[k].seg)
    ensures HeapSpec.Inv(l, View(parts[k := t]))
  {
    var ps := View(parts);
    OneAndOthers(ps, k);
    var owned := HeapBytes(ps);
    var kept := owned - (Bytes(ps[k].seg) - Bytes(t.seg));
    assert kept - Bytes(t.seg) == owned - Bytes(ps[k].seg);
    ReplacePart(l, ps, k, PartOf(t), owned, kept);
    assert View(parts[k := t]) == ps[k := PartOf(t)];
  }

  // Whatever happens elsewhere, a pointer's way stays right: clients keep it, and the big-object bin of a
  // bounded heap never gets a page back.
  lemma OthersOnTheirWay(l: Layout, st: State, t: State, except: set<nat>)
    requires |st.parts| == |t.parts| == PART_COUNT && (BigGone(st) ==> BigGone(t))
    requires forall i: nat, p: nat :: HeldIn(st, i, p) && p !in except ==> HeldIn(t, i, p)
    requires forall p: nat :: p !in except ==> (p in t.routes <==> p in st.routes) && (p in t.lost <==> p in st.lost)
    requires forall p: nat :: p !in except && p in st.routes && p in t.routes ==> t.routes[p] == st.routes[p]
    requires forall p: nat :: RouteOk(l, st, p) && LossOk(l, st, p)
    ensures forall p: nat :: p !in except ==> RouteOk(l, t, p) && LossOk(l, t, p)
  {
    forall p: nat | p !in except ensures RouteOk(l, t, p) && LossOk(l, t, p) {
      assert RouteOk(l, st, p) && LossOk(l, st, p);
      if p in st.routes {
        var i: nat :| HeldIn(st, i, p) && StageOk(l, st, i, p, st.routes[p]);
        assert HeldIn(t, i, p);
      }
      if p in st.lost {
        var i: nat :| i < BIG && HeldIn(st, i, p);
        assert HeldIn(t, i, p);
      }
    }
  }

  lemma OwnerKeepsInv(l: Layout, st: State, k: nat, step: S.Step)
    requires Sound(l, st) && Enabled(st, Owner(k, step))
    ensures Sound(l, Apply(l, st, Owner(k, step)))
  {
    var t := Apply(l, st, Owner(k, step));
    assert PartInv(st, k) && PartAt(l, View(st.parts), k);
    OwnerStepPart(l, k, st.parts[k], step);
    OnePartChanges(l, st.parts, k, t.parts[k]);
    forall i: nat ensures PartInv(t, i) {
      assert PartInv(st, i);
    }
    OthersOnTheirWay(l, st, t, {});
    assert IdleBut(t, k);
  }

  lemma AskLowKeepsInv(l: Layout, st: State, p: nat)
    requires Sound(l, st) && AtClient(st, p)
    ensures Sound(l, Apply(l, st, AskLow(p)))
  {
    var t := Apply(l, st, AskLow(p));
    var i: nat :| HeldIn(st, i, p);
    HeadSplits(l, st, i, p);
    OthersOnTheirWay(l, st, t, {p});
    assert HeldIn(t, i, p) && StageOk(l, t, i, p, t.routes[p]);
    forall j: nat ensures PartInv(t, j) {
      assert PartInv(st, j);
    }
    var k: nat :| IdleBut(st, k);
    assert IdleBut(t, k);
  }

  lemma AskHighKeepsInv(l: Layout, st: State, p: nat)
    requires Sound(l, st) && Enabled(st, AskHigh(p))
    ensures Sound(l, Apply(l, st, AskHigh(p)))
  {
    var t := Apply(l, st, AskHigh(p));
    assert RouteOk(l, st, p);
    var i: nat :| HeldIn(st, i, p) && StageOk(l, st, i, p, st.routes[p]);
    HeadSplits(l, st, i, p);
    OthersOnTheirWay(l, st, t, {p});
    assert HeldIn(t, i, p) && StageOk(l, t, i, p, t.routes[p]);
    forall j: nat ensures PartInv(t, j) {
      assert PartInv(st, j);
    }
    var k: nat :| IdleBut(st, k);
    assert IdleBut(t, k);
  }

  lemma ReadHeaderKeepsInv(l: Layout, st: State, p: nat)
    requires Sound(l, st) && Enabled(st, ReadHeader(p))
    ensures Sound(l, Apply(l, st, ReadHeader(p)))
  {
    var t := Apply(l, st, ReadHeader(p));
    assert RouteOk(l, st, p);
    var i: nat :| HeldIn(st, i, p) && StageOk(l, st, i, p, st.routes[p]);
    HeaderNamesBin(l, st, i, p);
    BinOfSizeClass(i);
    assert t.routes[p] == At(i);
    OthersOnTheirWay(l, st, t, {p});
    assert HeldIn(t, i, p) && StageOk(l, t, i, p, t.routes[p]);
    forall j: nat ensures PartInv(t, j) {
      assert PartInv(st, j);
    }
    var k: nat :| IdleBut(st, k);
    assert IdleBut(t, k);
  }

  // The part that is reached is the pointer's own, or it is the empty big-object bin, which drops it.
  lemma RoutedRight(l: Layout, st: State, p: nat) returns (i: nat)
    requires Sound(l, st) && p in st.routes && st.routes[p].At?
    ensures HeldIn(st, i, p) && p !in st.lost
    ensures st.routes[p] == At(i) || (st.routes[p] == At(BIG) && BigGone(st) && p < l.big && i < BIG)
    ensures st.routes[p] == At(i) ==> st.parts[i].seg.slots != []
  {
    assert RouteOk(l, st, p);
    i :| HeldIn(st, i, p) && StageOk(l, st, i, p, st.routes[p]);
    assert PartInv(st, i);
    S.FreedIsNeverDropped(st.parts[i], p);
  }

  lemma DropKeepsInv(l: Layout, st: State, p: nat)
    requires Sound(l, st) && Enabled(st, ReadHead(p)) && st.parts[st.routes[p].part].seg.slots == []
    ensures Sound(l, Apply(l, st, ReadHead(p)))
  {
    var t := Apply(l, st, ReadHead(p));
    var i := RoutedRight(l, st, p);
    OthersOnTheirWay(l, st, t, {p});
    assert HeldIn(t, i, p);
    forall j: nat ensures PartInv(t, j) {
      assert PartInv(st, j);
    }
    var k: nat :| IdleBut(st, k);
    assert IdleBut(t, k);
  }

  // Steps that hand a pointer on inside part k: its segment stays as it is.
  lemma ClientKeepsInv(l: Layout, st: State, t: State, k: nat, p: nat)
    requires Sound(l, st) && k < PART_COUNT == |t.parts| && S.Inv(t.parts[k]) && t.parts == st.parts[k := t.parts[k]]
    requires t.parts[k].seg == st.parts[k].seg && t.parts[k].phase == st.parts[k].phase
    requires st.parts[k].held - {p} <= t.parts[k].held
    requires t.lost == st.lost && t.routes == st.routes - {p} && p !in st.lost
    requires p !in st.routes ==> p in t.parts[k].held || forall i: nat :: !HeldIn(st, i, p)
    ensures Sound(l, t)
  {
    S.QueueHolds(t.parts[k]);
    assert PartAt(l, View(st.parts), k);
    OnePartChanges(l, st.parts, k, t.parts[k]);
    forall i: nat ensures PartInv(t, i) {
      assert PartInv(st, i);
    }
    OthersOnTheirWay(l, st, t, {p});
    var m: nat :| IdleBut(st, m);
    assert IdleBut(t, m);
  }

  lemma ReadHeadKeepsInv(l: Layout, st: State, p: nat)
    requires Sound(l, st) && Enabled(st, ReadHead(p))
    ensures Sound(l, Apply(l, st, ReadHead(p)))
  {
    var i := RoutedRight(l, st, p);
    if st.parts[st.routes[p].part].seg.slots == [] {
      DropKeepsInv(l, st, p);
    } else {
      assert PartInv(st, i);
      S.ClientStep(st.parts[i], p);
      ClientKeepsInv(l, st, Apply(l, st, ReadHead(p)), i, p);
    }
  }

  lemma PushKeepsInv(l: Layout, st: State, p: nat, k: nat)
    requires Sound(l, st) && Enabled(st, Push(p, k))
    ensures Sound(l, Apply(l, st, Push(p, k)))
  {
    var t := Apply(l, st, Push(p, k));
    assert PartInv(st, k);
    S.ClientStep(st.parts[k], p);
    NotHeldElsewhere(l, st, p, k);
    assert RouteOk(l, st, p) && LossOk(l, st, p);
    ClientKeepsInv(l, st, t, k, p);
  }

  // A pointer about to be pushed is with no client any more.
  lemma NotHeldElsewhere(l: Layout, st: State, p: nat, k: nat)
    requires Sound(l, st) && k < PART_COUNT && p in st.parts[k].freeing
    ensures forall i: nat :: !HeldIn(st, i, p)
  {
    assert PartInv(st, k) && S.Settled(st.parts[k], p);
    var ps := View(st.parts);
    assert HeldBy(ps, k, p);
    HeldInside(l, ps, k, p);
    forall i: nat ensures !HeldIn(st, i, p) {
      if HeldIn(st, i, p) {
        InView(l, st, i, p);
      }
    }
  }

  lemma StepKeepsInv(l: Layout, st: State, step: Step)
    requires Sound(l, st) && Enabled(st, step)
    ensures Sound(l, Apply(l, st, step))
  {
    match step
    case Owner(k, s) => OwnerKeepsInv(l, st, k, s);
    case AskLow(p) => AskLowKeepsInv(l, st, p);
    case AskHigh(p) => AskHighKeepsInv(l, st, p);
    case ReadHeader(p) => ReadHeaderKeepsInv(l, st, p);
    case ReadHead(p) => ReadHeadKeepsInv(l, st, p);
    case Push(p, k) => PushKeepsInv(l, st, p, k);
  }

  // The memory of a bounded heap only shrinks.
  lemma StepBytes(l: Layout, st: State, step: Step)
    requires Sound(l, st) && Enabled(st, step)
    ensures |Apply(l, st, step).parts| == PART_COUNT
    ensures HeapBytes(View(Apply(l, st, step).parts)) <= HeapBytes(View(st.parts))
  {
    var ps, t := View(st.parts), Apply(l, st, step);
    if step.Owner? {
      assert PartInv(st, step.k) && PartAt(l, ps, step.k);
      OwnerStepPart(l, step.k, st.parts[step.k], step.step);
    } else if step.ReadHead? {
      var i := RoutedRight(l, st, step.p);
    }
    forall i: nat, x: nat | ByteOf(View(t.parts), i, x) ensures ByteOf(ps, i, x) {
    }
    FewerBytes(ps, View(t.parts));
  }

  // ---- A free comes to its end ----

  // How many more steps the thread that frees p takes at most.
  ghost function StepsLeft(st: State, p: nat): nat {
    if p in st.routes then
      match st.routes[p]
      case AboveHead => 4
      case Small => 3
      case At(_) => 2
    else if exists k: nat :: EnteringQueue(st, k, p) then 1
    else 0
  }

  ghost predicate EnteringQueue(st: State, k: nat, p: nat) {
    k < |st.parts| && p in st.parts[k].freeing
  }

  ghost predicate FreesNext(step: Step, p: nat) {
    step == AskHigh(p) || step == ReadHeader(p) || step == ReadHead(p) || (step.Push? && step.p == p)
  }

  // It can always take one, and every one of them brings it nearer to the end; nobody else's step throws it back.
  lemma FreeAdvances(l: Layout, st: State, step: Step, p: nat)
    requires Sound(l, st) && Enabled(st, step) && step != AskLow(p)
    ensures |Apply(l, st, step).parts| == PART_COUNT
    ensures StepsLeft(Apply(l, st, step), p) <= StepsLeft(st, p)
    ensures FreesNext(step, p) ==> StepsLeft(Apply(l, st, step), p) < StepsLeft(st, p)
  {
    var t := Apply(l, st, step);
    forall k: nat | EnteringQueue(t, k, p) && !EnteringQueue(st, k, p) ensures step == ReadHead(p) {
    }
    match step
    case Push(q, k) =>
      if q == p {
        LeavesForQueue(l, st, p, k);
        assert EnteringQueue(st, k, p);
        forall j: nat ensures !EnteringQueue(t, j, p) {
          assert EnteringQueue(t, j, p) ==> EnteringQueue(st, j, p);
        }
      }
    case ReadHead(q) =>
      if q == p {
        var i := RoutedRight(l, st, p);
      }
    case _ =>
  }

  // A pointer is entering one queue at most, and then it is on no route.
  lemma LeavesForQueue(l: Layout, st: State, p: nat, k: nat)
    requires Sound(l, st) && k < PART_COUNT && p in st.parts[k].freeing
    ensures p !in st.routes && forall j: nat :: EnteringQueue(st, j, p) ==> j == k
  {
    NotHeldElsewhere(l, st, p, k);
    assert RouteOk(l, st, p);
    forall j: nat | EnteringQueue(st, j, p) ensures j == k {
      assert PartInv(st, k) && PartInv(st, j) && S.Settled(st.parts[k], p) && S.Settled(st.parts[j], p);
      var ps := View(st.parts);
      assert HeldBy(ps, k, p) && HeldBy(ps, j, p);
      HeldInside(l, ps, k, p);
    }
  }

  lemma FreeNeverStuck(l: Layout, st: State, p: nat) returns (step: Step)
    requires Sound(l, st) && StepsLeft(st, p) > 0
    ensures Enabled(st, step) && FreesNext(step, p)
  {
    if p in st.routes {
      match st.routes[p]
      case AboveHead => step := AskHigh(p);
      case Small => step := ReadHeader(p);
      case At(_) =>
        var i := RoutedRight(l, st, p);
        step := ReadHead(p);
    } else {
      var k: nat :| EnteringQueue(st, k, p);
      step := Push(p, k);
    }
  }

  // ---- A free on its own ----

  ghost function NextStep(st: State, p: nat): Step
    requires StepsLeft(st, p) > 0
  {
    if p in st.routes then
      match st.routes[p]
      case AboveHead => AskHigh(p)
      case Small => ReadHeader(p)
      case At(_) => ReadHead(p)
    else
      var k: nat :| EnteringQueue(st, k, p);
      Push(p, k)
  }

  lemma FreeNext(l: Layout, st: State, p: nat)
    requires Sound(l, st) && StepsLeft(st, p) > 0
    ensures Enabled(st, NextStep(st, p)) && Sound(l, Apply(l, st, NextStep(st, p)))
    ensures StepsLeft(Apply(l, st, NextStep(st, p)), p) < StepsLeft(st, p)
  {
    if p in st.routes && st.routes[p].At? {
      var i := RoutedRight(l, st, p);
    }
    StepKeepsInv(l, st, NextStep(st, p));
    FreeAdvances(l, st, NextStep(st, p), p);
  }

  // The freeing thread runs on to its end with nobody interfering.
  ghost function FreeRun(l: Layout, st: State, p: nat): State
    requires Sound(l, st)
    decreases StepsLeft(st, p)
  {
    if StepsLeft(st, p) == 0 then st
    else
      FreeNext(l, st, p);
      FreeRun(l, Apply(l, st, NextStep(st, p)), p)
  }

  // It leaves what the heap's own deallocate leaves: the part chosen by address has taken the pointer back, or has
  // dropped it because it has no pages.
  lemma AloneIsDeallocate(l: Layout, st: State, p: nat) returns (k: nat)
    requires Sound(l, st) && AtClient(st, p)
    ensures HeldIn(st, k, p) && Sound(l, Apply(l, st, AskLow(p)))
    ensures var ps := View(st.parts);
      var j := if BigOwns(l, ps, p) then BIG else k;
      View(FreeRun(l, Apply(l, st, AskLow(p)), p).parts) == ps[j := TakenBack(l, ps[j], p)]
  {
    k :| HeldIn(st, k, p);
    HeldInView(l, st, k, p);
    BigRouting(l, View(st.parts), k, p);
    StepKeepsInv(l, st, AskLow(p));
    var t := Apply(l, st, AskLow(p));
    if t.routes[p].AboveHead? {
      FreeNext(l, t, p);
      t := Apply(l, t, AskHigh(p));
    }
    if t.routes[p].Small? {
      FreeNext(l, t, p);
      HeaderNamesBin(l, t, k, p);
      BinOfSizeClass(k);
      t := Apply(l, t, ReadHeader(p));
    }
    assert t.parts == st.parts && Sound(l, t);
    EndsAtPart(l, t, p);
  }

  lemma EndsAtPart(l: Layout, st: State, p: nat)
    requires Sound(l, st) && p in st.routes && st.routes[p].At?
    ensures var ps, j := View(st.parts), st.routes[p].part;
      j < PART_COUNT && View(FreeRun(l, st, p).parts) == ps[j := TakenBack(l, ps[j], p)]
  {
    var i := RoutedRight(l, st, p);
    var j := st.routes[p].part;
    FreeNext(l, st, p);
    var t := Apply(l, st, ReadHead(p));
    NotYetEntering(l, st, p);
    if st.parts[j].seg.slots == [] {
      forall k: nat ensures !EnteringQueue(t, k, p) {
        assert !EnteringQueue(st, k, p);
      }
    } else {
      assert EnteringQueue(t, j, p);
      LeavesForQueue(l, t, p, j);
      FreeNext(l, t, p);
      var u := Apply(l, t, Push(p, j));
      assert NextStep(t, p) == Push(p, j);
      assert StepsLeft(u, p) == 0;
      assert FreeRun(l, t, p) == FreeRun(l, u, p) == u;
      assert View(u.parts)[j] == TakenBack(l, View(st.parts)[j], p);
    }
  }

  // A pointer on its way to a part is not entering any queue.
  lemma NotYetEntering(l: Layout, st: State, p: nat)
    requires Sound(l, st) && p in st.routes
    ensures forall k: nat :: !EnteringQueue(st, k, p)
  {
    forall k: nat ensures !EnteringQueue(st, k, p) {
      if EnteringQueue(st, k, p) {
        LeavesForQueue(l, st, p, k);
      }
    }
  }
}
