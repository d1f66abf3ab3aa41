// The whole allocator under concurrency: thread-local heaps come into use one after the other while any number of
// threads allocate and free. A freeing thread asks the active heaps in turn, reading the active count anew each
// time, and then runs the deallocate of the heap it chose, interleaved with everything else.
module AllocatorProtocol {
  import opened Words
  import opened ArenaModel
  import opened HeapSpec
  import R = Routing
  import H = HeapProtocol
  import HR = HeapRuns
  import C = CentralProtocol

  // A local heap in its slot; one that could not be created claims a buffer and has no pages.
  datatype LocalOf<L, T> = Alive(l: L, heap: T) | Dead(start: nat, len: nat)

  type Local = LocalOf<Layout, H.State>

  // Where a thread inside deallocate is with its pointer.
  datatype Scan = Asking(i: nat) | Chosen(k: nat)

  // Slot i, from 1 on, is locals[i - 1]; 0 stands for the central heap.
  datatype StateOf<T, L, M, B> = State(
    central: T,
    locals: L,        // the slots filled so far
    active: nat,      // m_active_local_heap_count
    scans: M,         // pointers on their way to a heap
    strayed: B,       // pointers that reached a heap that did not serve them
    owned: B,         // bytes the arena has handed out and not got back
    history: B)       // bytes it ever handed out

  type State = StateOf<C.State, seq<Local>, map<nat, Scan>, set<nat>>

  datatype Step =
    | Central(step: C.Step)          // a thread inside the central heap's allocate or deallocate
    | Within(k: nat, inner: H.Step)  // a thread inside local heap k's allocate or deallocate
    | AddHeap(local: Local)          // the next slot is filled
    | Seat                           // a new thread takes the next slot that is filled
    | Start(p: nat)                  // a client calls deallocate(p)
    | Ask(p: nat)                    // is the next heap active, and does its buffer hold p?
    | Enter(p: nat)                  // the chosen heap's deallocate begins

  // ---- The state as routing sees it ----

  ghost function Length(l: Layout): nat {
    RequiredBuffer(l.counts, l.small, l.big)
  }

  ghost function LocalView(x: Local): R.View {
    match x
    case Alive(l, heap) => R.HeapView(l.buffer, Length(l), H.View(heap.parts))
    case Dead(start, len) => R.View(start, len, {}, {}, iset{})
  }

  ghost function Views(c: Layout, st: State): seq<R.View> {
    [R.HeapView(c.buffer, Length(c), st.central.parts)] + seq(|st.locals|,
      i requires 0 <= i < |st.locals| => LocalView(st.locals[i]))
  }

  ghost predicate HasHeap(st: State, k: nat) {
    0 < k <= |st.locals| && st.locals[k - 1].Alive?
  }

  // A client holds a pointer of heap k, whose deallocate has not begun.
  ghost predicate ClientOf(st: State, k: nat, p: nat) {
    if k == 0 then p in st.central.held else HasHeap(st, k) && H.AtClient(st.locals[k - 1].heap, p)
  }

  // ---- The steps ----

  ghost predicate Enabled(c: Layout, st: State, step: Step) {
    match step
    case Central(s) => !s.AskBig? && C.Enabled(c, st.central, s) && C.NewBytes(c, st.central, s) !! st.history
    case Within(k, s) => HasHeap(st, k) && k <= st.active && !s.AskLow? && H.Enabled(st.locals[k - 1].heap, s)
    case AddHeap(Alive(l, heap)) => HR.Initial(l, heap) && l.buffer > 0 && Range(l.buffer, Length(l)) !! st.history
    case AddHeap(Dead(start, len)) => start != 0 ==> Range(start, len) !! st.history
    case Seat => st.active < |st.locals|
    case Start(p) => p !in st.scans && p !in st.strayed && exists k: nat :: ClientOf(st, k, p)
    case Ask(p) => p in st.scans && st.scans[p].Asking?
    case Enter(p) => p in st.scans && st.scans[p].Chosen?
  }

  // Heap k steps; what it gives back leaves the owned bytes, what it gets was never handed out.
  ghost function WithCentral(st: State, central: C.State): State {
    var before, after := HeapBytes(st.central.parts), HeapBytes(central.parts);
    st.(central := central, owned := st.owned - before + after, history := st.history + after)
  }

  ghost function WithLocal(st: State, k: nat, heap: H.State): State
    requires HasHeap(st, k)
  {
    var x := st.locals[k - 1];
    var before, after := HeapBytes(H.View(x.heap.parts)), HeapBytes(H.View(heap.parts));
    st.(locals := st.locals[k - 1 := x.(heap := heap)], owned := st.owned - before + after)
  }

  ghost predicate Steppable(c: Layout, st: State) {
    && |st.central.parts| == PART_COUNT && 0 < c.small < WORD_LIMIT
    && forall k: nat :: HeapSteppable(st, k)
  }

  ghost predicate HeapSteppable(st: State, k: nat) {
    HasHeap(st, k) ==> |st.locals[k - 1].heap.parts| == PART_COUNT && 0 < st.locals[k - 1].l.small < WORD_LIMIT
  }

  ghost function Apply(c: Layout, st: State, step: Step): State
    requires Steppable(c, st) && Enabled(c, st, step)
  {
    match step
    case Central(s) => WithCentral(st, C.Apply(c, st.central, s))
    case Within(k, s) =>
      assert HeapSteppable(st, k);
      WithLocal(st, k, H.Apply(st.locals[k - 1].l, st.locals[k - 1].heap, s))
    case AddHeap(x) =>
      var v := LocalView(x);
      st.(locals := st.locals + [x], owned := st.owned + v.bytes,
          history := st.history + if v.start == 0 then {} else Range(v.start, v.len))
    case Seat => st.(active := st.active + 1)
    case Start(p) => st.(scans := st.scans[p := Asking(1)])
    case Ask(p) =>
      var i := st.scans[p].i;
      st.(scans := st.scans[p := if i > st.active then Chosen(0) else if R.Claims(Views(c, st), i, p) then Chosen(i)
        else Asking(i + 1)])
    case Enter(p) =>
      var k, u := st.scans[p].k, st.(scans := st.scans - {p});
      if !ClientOf(st, k, p) then u.(strayed := st.strayed + {p})
      else if k == 0 then WithCentral(u, C.Apply(c, st.central, C.AskBig(p)))
      else
        assert HeapSteppable(st, k);
        WithLocal(u, k, H.Apply(st.locals[k - 1].l, st.locals[k - 1].heap, H.AskLow(p)))
  }

  // ---- The invariant ----

  ghost predicate LocalOk(st: State, k: nat) {
    HasHeap(st, k) ==> st.locals[k - 1].l.buffer > 0 && H.Sound(st.locals[k - 1].l, st.locals[k - 1].heap)
  }

  // The search has not passed heap k, or has chosen it.
  ghost predicate Reaching(scan: Scan, k: nat) {
    match scan
    case Asking(i) => i > 0 && (k == 0 || i <= k)
    case Chosen(j) => j == k
  }

  // Without a refused buffer in the way, every search reaches the heap that served the pointer.
  ghost predicate ScanOk(c: Layout, st: State, p: nat) {
    p in st.scans ==>
      p !in st.strayed && exists k: nat :: ClientOf(st, k, p) && (R.Low(Views(c, st), p) || Reaching(st.scans[p], k))
  }

  ghost predicate StrayOk(c: Layout, st: State, p: nat) {
    p in st.strayed ==> R.Low(Views(c, st), p) && exists k: nat :: ClientOf(st, k, p)
  }

  ghost predicate Sound(c: Layout, st: State) {
    && C.Sound(c, st.central)
    && (forall k: nat :: LocalOk(st, k))
    && R.Inv(Views(c, st), st.owned, st.history, false)
    && st.active <= |st.locals| && R.Idle(Views(c, st), st.active)
    && (forall p: nat :: ScanOk(c, st, p))
    && (forall p: nat :: StrayOk(c, st, p))
  }

  lemma SoundSteps(c: Layout, st: State)
    requires Sound(c, st)
    ensures Steppable(c, st)
  {
    forall k: nat ensures HeapSteppable(st, k) {
      assert LocalOk(st, k);
    }
  }

  // ---- One heap steps ----

  lemma ClientHeld(c: Layout, st: State, k: nat, p: nat)
    requires Sound(c, st) && ClientOf(st, k, p)
    ensures R.HolderAt(Views(c, st), k, p) && k <= st.active
    ensures forall j: nat :: j != k ==> !R.HolderAt(Views(c, st), j, p)
  {
    if k == 0 {
      assert p in HeapHeld(st.central.parts);
    } else {
      var x := st.locals[k - 1];
      assert LocalOk(st, k);
      var i: nat :| H.HeldIn(x.heap, i, p);
      H.HeldInView(x.l, x.heap, i, p);
      HeldSomewhere(H.View(x.heap.parts), p);
    }
    R.HolderUnique(Views(c, st), st.owned, st.history, false, k, p);
    assert R.Busy(Views(c, st), k);
  }

  lemma CentralStep(c: Layout, st: State, step: C.Step)
    requires C.Sound(c, st.central) && C.Enabled(c, st.central, step) && C.NewBytes(c, st.central, step) !! st.history
    ensures var central := C.Apply(c, st.central, step);
      var v := R.HeapView(c.buffer, Length(c), central.parts);
      && C.Sound(c, central) && v.held <= v.bytes && R.RoomOk(v)
      && HeapBytes(central.parts) - HeapBytes(st.central.parts) !! st.history
  {
    C.StepKeepsInv(c, st.central, step);
    C.StepBytes(c, st.central, step);
    R.HeapViewOk(c, c.buffer, Length(c), C.Apply(c, st.central, step).parts);
  }

  lemma CentralView(c: Layout, st: State, central: C.State)
    ensures Views(c, WithCentral(st, central)) == Views(c, st)[0 := R.HeapView(c.buffer, Length(c), central.parts)]
  {
  }

  lemma OneLocalView(c: Layout, st: State, k: nat, heap: H.State)
    requires HasHeap(st, k)
    ensures Views(c, WithLocal(st, k, heap)) == Views(c, st)[k := LocalView(Alive(st.locals[k - 1].l, heap))]
  {
  }

  lemma CentralTrade(c: Layout, st: State, step: C.Step)
    requires Sound(c, st) && C.Enabled(c, st.central, step) && C.NewBytes(c, st.central, step) !! st.history
    ensures var t := WithCentral(st, C.Apply(c, st.central, step));
      && C.Sound(c, t.central) && R.Inv(Views(c, t), t.owned, t.history, false) && R.Idle(Views(c, t), st.active)
  {
    var t, vs := WithCentral(st, C.Apply(c, st.central, step)), Views(c, st);
    CentralStep(c, st, step);
    var v := Views(c, t)[0];
    assert R.ViewOk(vs, st.owned, st.history, 0);
    CentralView(c, st, t.central);
    R.FairTrade(vs[0], v, st.owned, st.history, t.history);
    R.OneHeapChanges(vs, 0, v, st.owned, t.owned, st.history, t.history, false);
    R.StaysIdle(vs, 0, v, st.active);
  }

  lemma BoundedView(l: Layout, heap: H.State)
    requires H.Sound(l, heap)
    ensures var v := LocalView(Alive(l, heap)); v.held <= v.bytes <= Range(v.start, v.len) && R.RoomOk(v)
  {
    var v := LocalView(Alive(l, heap));
    R.HeapViewOk(l, v.start, v.len, H.View(heap.parts));
    forall a | a in v.bytes ensures a in Range(v.start, v.len) {
      BoundedHeap(l, H.View(heap.parts), a);
    }
  }

  lemma LocalTrade(c: Layout, st: State, k: nat, step: H.Step)
    requires Sound(c, st) && HasHeap(st, k) && k <= st.active && H.Enabled(st.locals[k - 1].heap, step)
    ensures H.Sound(st.locals[k - 1].l, st.locals[k - 1].heap)
    ensures var x := st.locals[k - 1];
      var t := WithLocal(st, k, H.Apply(x.l, x.heap, step));
      && H.Sound(x.l, t.locals[k - 1].heap) && R.Inv(Views(c, t), t.owned, t.history, false)
      && R.Idle(Views(c, t), st.active)
  {
    var x, vs := st.locals[k - 1], Views(c, st);
    assert LocalOk(st, k);
    var heap := H.Apply(x.l, x.heap, step);
    var t := WithLocal(st, k, heap);
    H.StepKeepsInv(x.l, x.heap, step);
    H.StepBytes(x.l, x.heap, step);
    var v := LocalView(t.locals[k - 1]);
    BoundedView(x.l, heap);
    assert R.ViewOk(vs, st.owned, st.history, k);
    OneLocalView(c, st, k, heap);
    R.FairTrade(vs[k], v, st.owned, st.history, t.history);
    R.OneHeapChanges(vs, k, v, st.owned, t.owned, st.history, t.history, false);
    R.StaysIdle(vs, k, v, st.active);
  }

  // ---- Searches go on undisturbed ----

  ghost predicate SameRanges(vs: seq<R.View>, us: seq<R.View>) {
    |vs| <= |us| && forall j :: 0 <= j < |vs| ==> us[j].start == vs[j].start && us[j].len == vs[j].len
  }

  lemma LowStays(vs: seq<R.View>, us: seq<R.View>, p: nat)
    requires SameRanges(vs, us) && R.Low(vs, p)
    ensures R.Low(us, p)
  {
    var j: nat :| R.LowClaim(vs, j, p);
    assert R.LowClaim(us, j, p);
  }

  ghost predicate SameScan(st: State, t: State, p: nat) {
    && (p in t.strayed <==> p in st.strayed) && (p in t.scans <==> p in st.scans)
    && (p in st.scans && p in t.scans ==> t.scans[p] == st.scans[p])
  }

  lemma ScanKept(c: Layout, st: State, t: State, p: nat)
    requires ScanOk(c, st, p) && StrayOk(c, st, p) && SameScan(st, t, p) && SameRanges(Views(c, st), Views(c, t))
    requires forall k: nat :: ClientOf(st, k, p) ==> ClientOf(t, k, p)
    ensures ScanOk(c, t, p) && StrayOk(c, t, p)
  {
    if R.Low(Views(c, st), p) {
      LowStays(Views(c, st), Views(c, t), p);
    }
    if p in st.scans {
      var k: nat :| ClientOf(st, k, p) && (R.Low(Views(c, st), p) || Reaching(st.scans[p], k));
      assert ClientOf(t, k, p);
    }
    if p in st.strayed {
      var k: nat :| ClientOf(st, k, p);
      assert ClientOf(t, k, p);
    }
  }

  lemma HeapStepKeepsClients(st: State, k: nat, step: H.Step, j: nat, p: nat)
    requires HasHeap(st, k) && LocalOk(st, k) && H.Enabled(st.locals[k - 1].heap, step)
    requires ClientOf(st, j, p) && step != H.AskLow(p)
    ensures ClientOf(WithLocal(st, k, H.Apply(st.locals[k - 1].l, st.locals[k - 1].heap, step)), j, p)
  {
    if j == k {
      HR.StaysAtClient(st.locals[k - 1].l, st.locals[k - 1].heap, step, p);
    }
  }

  // A client's pointer stays with it while others step.
  lemma ClientStays(c: Layout, st: State, step: Step, k: nat, p: nat)
    requires Sound(c, st) && Steppable(c, st) && Enabled(c, st, step) && ClientOf(st, k, p) && step != Enter(p)
    ensures ClientOf(Apply(c, st, step), k, p)
  {
    match step
    case Within(j, s) =>
      assert LocalOk(st, j);
      HeapStepKeepsClients(st, j, s, k, p);
    case Enter(q) =>
      var j := st.scans[q].k;
      if j > 0 && ClientOf(st, j, q) {
        assert LocalOk(st, j);
        HeapStepKeepsClients(st, j, H.AskLow(q), k, p);
      }
    case _ =>
  }

  // ---- Every step keeps the invariant ----

  lemma CentralKeepsInv(c: Layout, st: State, step: C.Step)
    requires Sound(c, st) && Steppable(c, st) && Enabled(c, st, Central(step))
    ensures Sound(c, Apply(c, st, Central(step)))
  {
    var t := Apply(c, st, Central(step));
    CentralTrade(c, st, step);
    forall k: nat ensures LocalOk(t, k) {
      assert LocalOk(st, k);
    }
    forall p: nat ensures ScanOk(c, t, p) && StrayOk(c, t, p) {
      OthersGoOn(c, st, Central(step), p);
    }
  }

  lemma WithinKeepsInv(c: Layout, st: State, k: nat, step: H.Step)
    requires Sound(c, st) && Steppable(c, st) && Enabled(c, st, Within(k, step))
    ensures Sound(c, Apply(c, st, Within(k, step)))
  {
    var t := Apply(c, st, Within(k, step));
    LocalTrade(c, st, k, step);
    forall j: nat ensures LocalOk(t, j) {
      assert LocalOk(st, j);
    }
    forall p: nat ensures ScanOk(c, t, p) && StrayOk(c, t, p) {
      OthersGoOn(c, st, Within(k, step), p);
    }
  }

  // Steps that do not concern the search for p.
  lemma OthersGoOn(c: Layout, st: State, step: Step, p: nat)
    requires Sound(c, st) && Steppable(c, st) && Enabled(c, st, step)
    requires step != Enter(p) && SameScan(st, Apply(c, st, step), p)
    ensures ScanOk(c, Apply(c, st, step), p) && StrayOk(c, Apply(c, st, step), p)
  {
    var t := Apply(c, st, step);
    forall k: nat | ClientOf(st, k, p) ensures ClientOf(t, k, p) {
      ClientStays(c, st, step, k, p);
    }
    RangesStay(c, st, step);
    assert ScanOk(c, st, p) && StrayOk(c, st, p);
    ScanKept(c, st, t, p);
  }

  lemma RangesStay(c: Layout, st: State, step: Step)
    requires Steppable(c, st) && Enabled(c, st, step)
    ensures SameRanges(Views(c, st), Views(c, Apply(c, st, step)))
  {
  }

  // A heap just created holds nothing.
  lemma FreshLocal(l: Layout, heap: H.State)
    requires HR.Initial(l, heap)
    ensures H.Sound(l, heap)
    ensures var v := LocalView(Alive(l, heap)); v.held == {} && v.room == iset{}
  {
    HR.InitialInv(l, heap);
    var ps := H.View(heap.parts);
    forall i: nat, p: nat ensures !HeldBy(ps, i, p) {
      assert i < PART_COUNT ==> HR.NothingOut(heap.parts[i]);
    }
    forall p ensures p !in HeapHeld(ps) {
      HeldSomewhere(ps, p);
    }
    forall p: nat, n: nat ensures !Reserved(ps, p, n) {
    }
  }

  lemma AddHeapKeepsInv(c: Layout, st: State, x: Local)
    requires Sound(c, st) && Steppable(c, st) && Enabled(c, st, AddHeap(x))
    ensures Sound(c, Apply(c, st, AddHeap(x)))
  {
    var t, v, vs := Apply(c, st, AddHeap(x)), LocalView(x), Views(c, st);
    if x.Alive? {
      FreshLocal(x.l, x.heap);
      BoundedView(x.l, x.heap);
    }
    R.HeapAdded(vs, v, st.owned, t.owned, st.history, t.history, false, st.active);
    assert Views(c, t) == vs + [v];
    forall k: nat ensures LocalOk(t, k) {
      assert LocalOk(st, k);
    }
    forall p: nat ensures ScanOk(c, t, p) && StrayOk(c, t, p) {
      OthersGoOn(c, st, AddHeap(x), p);
    }
  }

  lemma SeatKeepsInv(c: Layout, st: State)
    requires Sound(c, st) && Steppable(c, st) && Enabled(c, st, Seat)
    ensures Sound(c, Apply(c, st, Seat))
  {
    var t := Apply(c, st, Seat);
    assert Views(c, t) == Views(c, st);
    R.MoreActive(Views(c, st), st.active);
    forall k: nat ensures LocalOk(t, k) {
      assert LocalOk(st, k);
    }
    forall p: nat ensures ScanOk(c, t, p) && StrayOk(c, t, p) {
      OthersGoOn(c, st, Seat, p);
    }
  }

  // Steps of a search that leave all heaps as they are.
  lemma SearchKeepsInv(c: Layout, st: State, step: Step, p: nat)
    requires Sound(c, st) && Steppable(c, st) && Enabled(c, st, step) && (step == Start(p) || step == Ask(p))
    requires ScanOk(c, Apply(c, st, step), p) && StrayOk(c, Apply(c, st, step), p)
    ensures Sound(c, Apply(c, st, step))
  {
    var t := Apply(c, st, step);
    assert Views(c, t) == Views(c, st);
    forall k: nat ensures LocalOk(t, k) {
      assert LocalOk(st, k);
    }
    forall q: nat ensures ScanOk(c, t, q) && StrayOk(c, t, q) {
      if q != p {
        OthersGoOn(c, st, step, q);
      }
    }
  }

  lemma StartKeepsInv(c: Layout, st: State, p: nat)
    requires Sound(c, st) && Steppable(c, st) && Enabled(c, st, Start(p))
    ensures Sound(c, Apply(c, st, Start(p)))
  {
    var t := Apply(c, st, Start(p));
    assert Views(c, t) == Views(c, st);
    var k: nat :| ClientOf(st, k, p);
    assert ClientOf(t, k, p) && Reaching(t.scans[p], k);
    SearchKeepsInv(c, st, Start(p), p);
  }

  // The active heaps are asked in order, and only the one that served the pointer claims it.
  lemma NextAnswer(c: Layout, st: State, k: nat, p: nat, i: nat)
    requires Sound(c, st) && ClientOf(st, k, p) && !R.Low(Views(c, st), p) && 0 < i
    ensures i <= st.active ==> (R.Claims(Views(c, st), i, p) <==> i == k)
    ensures k <= st.active
  {
    var vs := Views(c, st);
    ClientHeld(c, st, k, p);
    assert R.ViewOk(vs, st.owned, st.history, k) && R.OutOfRange(vs, i, k) && !R.LowClaim(vs, i, p);
  }

  lemma AskKeepsInv(c: Layout, st: State, p: nat)
    requires Sound(c, st) && Steppable(c, st) && Enabled(c, st, Ask(p))
    ensures Sound(c, Apply(c, st, Ask(p)))
  {
    var t := Apply(c, st, Ask(p));
    assert Views(c, t) == Views(c, st);
    assert ScanOk(c, st, p);
    var k: nat :| ClientOf(st, k, p) && (R.Low(Views(c, st), p) || Reaching(st.scans[p], k));
    assert ClientOf(t, k, p);
    if !R.Low(Views(c, st), p) {
      NextAnswer(c, st, k, p, st.scans[p].i);
    }
    SearchKeepsInv(c, st, Ask(p), p);
  }

  // A heap is entered by a pointer of its own, or a refused buffer claims the pointer.
  lemma EnterKeepsInv(c: Layout, st: State, p: nat)
    requires Sound(c, st) && Steppable(c, st) && Enabled(c, st, Enter(p))
    ensures Sound(c, Apply(c, st, Enter(p)))
    ensures R.Low(Views(c, st), p) || ClientOf(st, st.scans[p].k, p)
  {
    var t, k := Apply(c, st, Enter(p)), st.scans[p].k;
    assert ScanOk(c, st, p) && StrayOk(c, st, p);
    EnterTrades(c, st, p);
    forall q: nat ensures ScanOk(c, t, q) && StrayOk(c, t, q) {
      if q != p {
        OthersGoOn(c, st, Enter(p), q);
      } else if !ClientOf(st, k, p) {
        assert Views(c, t) == Views(c, st);
        var j: nat :| ClientOf(st, j, p);
        assert ClientOf(t, j, p);
      }
    }
  }

  lemma EnterTrades(c: Layout, st: State, p: nat)
    requires Sound(c, st) && Steppable(c, st) && Enabled(c, st, Enter(p))
    ensures var t := Apply(c, st, Enter(p));
      && C.Sound(c, t.central) && (forall k: nat :: LocalOk(t, k))
      && R.Inv(Views(c, t), t.owned, t.history, false) && t.active <= |t.locals| && R.Idle(Views(c, t), t.active)
  {
    var t, k := Apply(c, st, Enter(p)), st.scans[p].k;
    if !ClientOf(st, k, p) {
      assert Views(c, t) == Views(c, st);
    } else {
      ClientHeld(c, st, k, p);
      if k == 0 {
        CentralTrade(c, st, C.AskBig(p));
        assert Views(c, t) == Views(c, WithCentral(st, t.central));
      } else {
        LocalTrade(c, st, k, H.AskLow(p));
        assert Views(c, t) == Views(c, WithLocal(st, k, t.locals[k - 1].heap));
      }
    }
    forall j: nat ensures LocalOk(t, j) {
      assert LocalOk(st, j);
    }
  }

  lemma StepKeepsInv(c: Layout, st: State, step: Step)
    requires Sound(c, st) && Steppable(c, st) && Enabled(c, st, step)
    ensures Sound(c, Apply(c, st, step))
  {
    match step
    case Central(s) => CentralKeepsInv(c, st, s);
    case Within(k, s) => WithinKeepsInv(c, st, k, s);
    case AddHeap(x) => AddHeapKeepsInv(c, st, x);
    case Seat => SeatKeepsInv(c, st);
    case Start(p) => StartKeepsInv(c, st, p);
    case Ask(p) => AskKeepsInv(c, st, p);
    case Enter(p) => EnterKeepsInv(c, st, p);
  }
}
