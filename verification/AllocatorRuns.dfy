// What the whole allocator keeps over every interleaving of its threads.
module AllocatorRuns {
  import opened HeapSpec
  import opened AllocatorProtocol
  import R = Routing
  import HR = HeapRuns
  import C = CentralProtocol

  ghost predicate StepOk(c: Layout, states: seq<State>, steps: seq<Step>, i: nat)
    requires |states| == |steps| + 1
  {
    i < |steps| ==>
      Steppable(c, states[i]) && Enabled(c, states[i], steps[i]) && states[i + 1] == Apply(c, states[i], steps[i])
  }

  // The allocator with its central heap, no slot filled, and nothing handed out.
  ghost predicate Initial(c: Layout, st: State) {
    && C.Initial(c, st.central)
    && st == State(st.central, [], 0, map[], {}, HeapBytes(st.central.parts), st.history) && st.owned <= st.history
  }

  ghost predicate Run(c: Layout, states: seq<State>, steps: seq<Step>) {
    && |states| == |steps| + 1 && Initial(c, states[0])
    && forall i: nat :: StepOk(c, states, steps, i)
  }

  lemma InitialInv(c: Layout, st: State)
    requires Initial(c, st)
    ensures Sound(c, st)
  {
    forall p: nat ensures C.RouteOk(st.central, p) {
    }
    var v := R.HeapView(c.buffer, Length(c), st.central.parts);
    R.HeapViewOk(c, v.start, v.len, st.central.parts);
    assert Views(c, st) == [v];
    R.OneHeap([v], st.owned, st.history, false);
    forall k: nat ensures LocalOk(st, k) {
    }
    forall p: nat ensures ScanOk(c, st, p) && StrayOk(c, st, p) {
    }
  }

  // Every heap stays sound and apart from the others, all memory in use came from the arena, and what the arena
  // ever handed out only grows.
  lemma {:induction false} RunKeepsInv(c: Layout, states: seq<State>, steps: seq<Step>, n: nat)
    requires Run(c, states, steps) && n < |states|
    ensures Sound(c, states[n])
    ensures states[0].history <= states[n].history && states[n].owned <= states[n].history
  {
    if n == 0 {
      InitialInv(c, states[0]);
    } else {
      RunKeepsInv(c, states, steps, n - 1);
      assert StepOk(c, states, steps, n - 1);
      StepKeepsInv(c, states[n - 1], steps[n - 1]);
    }
  }

  // ---- Nothing goes astray ----

  // The system refused no local heap its buffer.
  ghost predicate NoneRefused(st: State) {
    forall i :: 0 <= i < |st.locals| && st.locals[i].Dead? ==> st.locals[i].start != 0
  }

  // No local heap can lose a small object to a big-object bin without pages.
  ghost predicate NoneLoses(st: State) {
    forall i :: 0 <= i < |st.locals| && st.locals[i].Alive? ==>
      st.locals[i].l.bigThreshold >= 1 || st.locals[i].l.buffer >= st.locals[i].l.big
  }

  // Every pointer that is freed reaches the heap that served it, and every heap takes it.
  lemma NothingStrays(c: Layout, states: seq<State>, steps: seq<Step>, n: nat)
    requires Run(c, states, steps) && n < |states|
    ensures NoneRefused(states[n]) ==> states[n].strayed == {}
    ensures states[n].central.lost == {}
    ensures NoneLoses(states[n]) ==> forall k: nat :: HasHeap(states[n], k) ==> states[n].locals[k - 1].heap.lost == {}
  {
    RunKeepsInv(c, states, steps, n);
    var st := states[n];
    if NoneRefused(st) {
      forall p: nat ensures p !in st.strayed {
        assert StrayOk(c, st, p);
        NoLowClaim(c, st, p);
      }
    }
    if NoneLoses(st) {
      forall k: nat | HasHeap(st, k) ensures st.locals[k - 1].heap.lost == {} {
        assert LocalOk(st, k);
        HR.SoundLosesNothing(st.locals[k - 1].l, st.locals[k - 1].heap);
      }
    }
  }

  lemma NoLowClaim(c: Layout, st: State, p: nat)
    requires Sound(c, st) && NoneRefused(st)
    ensures !R.Low(Views(c, st), p)
  {
    forall j: nat ensures !R.LowClaim(Views(c, st), j, p) {
      assert LocalOk(st, j);
    }
  }

  // ---- Nothing is handed out twice ----

  // The pointer a step hands out, 0 if it hands out none.
  ghost function Returned(c: Layout, st: State, step: Step): nat
    requires Enabled(c, st, step)
  {
    match step
    case Central(s) => C.Returned(c, st.central, s)
    case Within(k, s) => HR.Returned(st.locals[k - 1].heap, s)
    case _ => 0
  }

  // Some client holds p and has not called deallocate with it.
  ghost predicate WithClient(st: State, p: nat) {
    p !in st.scans && p !in st.strayed && exists k: nat :: ClientOf(st, k, p)
  }

  lemma HeapServes(c: Layout, st: State, step: Step) returns (k: nat)
    requires Sound(c, st) && Steppable(c, st) && Enabled(c, st, step) && Returned(c, st, step) != 0
    ensures !ClientOf(st, k, Returned(c, st, step)) && ClientOf(Apply(c, st, step), k, Returned(c, st, step))
  {
    match step
    case Central(s) =>
      k := 0;
      C.ReturnedWasFree(c, st.central, s);
    case Within(j, s) =>
      k := j;
      assert LocalOk(st, j);
      HR.ReturnedWasFree(st.locals[j - 1].l, st.locals[j - 1].heap, s.k, s.step);
    case _ =>
  }

  // What a heap hands out was with no client of any heap.
  lemma ReturnedWasFree(c: Layout, st: State, step: Step)
    requires Sound(c, st) && Steppable(c, st) && Enabled(c, st, step) && Returned(c, st, step) != 0
    ensures var p := Returned(c, st, step); (forall k: nat :: !ClientOf(st, k, p)) && WithClient(Apply(c, st, step), p)
  {
    var p, t := Returned(c, st, step), Apply(c, st, step);
    var k := HeapServes(c, st, step);
    StepKeepsInv(c, st, step);
    ClientHeld(c, t, k, p);
    forall j: nat ensures !ClientOf(st, j, p) {
      if ClientOf(st, j, p) {
        ClientStays(c, st, step, j, p);
        ClientHeld(c, t, j, p);
      }
    }
    assert ScanOk(c, st, p) && StrayOk(c, st, p);
  }

  ghost predicate FreedBetween(steps: seq<Step>, i: nat, j: nat, p: nat) {
    exists k: nat :: StartsFree(steps, i, k, j, p)
  }

  ghost predicate StartsFree(steps: seq<Step>, i: nat, k: nat, j: nat, p: nat) {
    i < k < j <= |steps| && steps[k] == Start(p)
  }

  // A client keeps its pointer until it calls deallocate with it.
  lemma StaysWithClient(c: Layout, st: State, step: Step, p: nat)
    requires Sound(c, st) && Steppable(c, st) && Enabled(c, st, step) && WithClient(st, p) && step != Start(p)
    ensures WithClient(Apply(c, st, step), p)
  {
    var k: nat :| ClientOf(st, k, p);
    ClientStays(c, st, step, k, p);
  }

  lemma {:induction false} WithClientUntilFreed(c: Layout, states: seq<State>, steps: seq<Step>, i: nat, j: nat, p: nat)
    requires Run(c, states, steps) && i < j < |states| && WithClient(states[i + 1], p)
    ensures WithClient(states[j], p) || FreedBetween(steps, i, j, p)
    decreases j
  {
    if j > i + 1 {
      WithClientUntilFreed(c, states, steps, i, j - 1, p);
      RunKeepsInv(c, states, steps, j - 1);
      assert StepOk(c, states, steps, j - 1);
      if FreedBetween(steps, i, j - 1, p) {
        var k: nat :| StartsFree(steps, i, k, j - 1, p);
        assert StartsFree(steps, i, k, j, p);
      } else if steps[j - 1] == Start(p) {
        assert StartsFree(steps, i, j - 1, j, p);
      } else {
        StaysWithClient(c, states[j - 1], steps[j - 1], p);
      }
    }
  }

  // Whichever heaps serve, no pointer is handed out twice without a client freeing it in between.
  lemma NeverHandedOutTwice(c: Layout, states: seq<State>, steps: seq<Step>, i: nat, j: nat)
    requires Run(c, states, steps) && i < j < |steps|
    requires Enabled(c, states[i], steps[i]) && Enabled(c, states[j], steps[j])
    requires Returned(c, states[i], steps[i]) == Returned(c, states[j], steps[j]) != 0
    ensures FreedBetween(steps, i, j, Returned(c, states[i], steps[i]))
  {
    var p := Returned(c, states[i], steps[i]);
    RunKeepsInv(c, states, steps, i);
    RunKeepsInv(c, states, steps, j);
    assert StepOk(c, states, steps, i) && StepOk(c, states, steps, j);
    ReturnedWasFree(c, states[i], steps[i]);
    ReturnedWasFree(c, states[j], steps[j]);
    WithClientUntilFreed(c, states, steps, i, j, p);
  }

  // ---- A search comes to its end ----

  ghost function Asks(steps: seq<Step>, p: nat, i: nat, j: nat): nat
    requires i <= j <= |steps|
  {
    if i == j then 0 else Asks(steps, p, i, j - 1) + if steps[j - 1] == Ask(p) then 1 else 0
  }

  // The search has asked the heaps before the next one.
  ghost predicate AskedSoFar(st: State, p: nat, asks: nat) {
    p in st.scans &&
    match st.scans[p]
    case Asking(i) => i == asks + 1 <= st.active + 1
    case Chosen(_) => 0 < asks <= st.active + 1
  }

  lemma OneAsk(c: Layout, st: State, step: Step, p: nat, asks: nat)
    requires Steppable(c, st) && Enabled(c, st, step) && AskedSoFar(st, p, asks) && p in Apply(c, st, step).scans
    ensures AskedSoFar(Apply(c, st, step), p, if step == Ask(p) then asks + 1 else asks)
  {
  }

  // However many heaps come into use meanwhile, a search asks each active heap at most once, and then once more
  // finds that there is none left.
  lemma {:induction false} SearchEnds(c: Layout, states: seq<State>, steps: seq<Step>, i: nat, j: nat, p: nat)
    requires Run(c, states, steps) && i < j < |states| && steps[i] == Start(p)
    requires forall k :: i < k <= j ==> p in states[k].scans
    ensures AskedSoFar(states[j], p, Asks(steps, p, i + 1, j))
    decreases j
  {
    assert StepOk(c, states, steps, j - 1);
    if j > i + 1 {
      SearchEnds(c, states, steps, i, j - 1, p);
      OneAsk(c, states[j - 1], steps[j - 1], p, Asks(steps, p, i + 1, j - 1));
    }
  }
}
