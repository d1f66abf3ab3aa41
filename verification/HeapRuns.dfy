// What a bounded heap keeps over whole runs of its owner and any number of freeing threads.
module HeapRuns {
  import opened Words
  import opened Bits
  import opened SegmentSpec
  import opened HeapSpec
  import opened HeapProtocol
  import S = Protocol

  // ---- Whole runs ----

  ghost predicate StepOk(l: Layout, states: seq<State>, steps: seq<Step>, i: nat)
    requires |states| == |steps| + 1
  {
    i < |steps| ==>
      && |states[i].parts| == PART_COUNT && 0 < l.small < WORD_LIMIT
      && Enabled(states[i], steps[i]) && states[i + 1] == Apply(l, states[i], steps[i])
  }

  // A heap that has handed out nothing.
  ghost predicate Initial(l: Layout, st: State) {
    && |st.parts| == PART_COUNT && l.local && l.small < WORD_LIMIT && IsPow2(l.small)
    && HeapSpec.Inv(l, View(st.parts)) && st.routes == map[] && st.lost == {}
    && forall i :: 0 <= i < PART_COUNT ==> NothingOut(st.parts[i])
  }

  ghost predicate NothingOut(st: S.State) {
    LivePtrs(st.seg) == {} && st == S.State(st.seg, [], {}, {}, S.Idle)
  }

  ghost predicate Run(l: Layout, states: seq<State>, steps: seq<Step>) {
    && |states| == |steps| + 1 && Initial(l, states[0])
    && forall i: nat :: StepOk(l, states, steps, i)
  }

  lemma InitialInv(l: Layout, st: State)
    requires Initial(l, st)
    ensures Sound(l, st)
  {
    forall i: nat ensures PartInv(st, i) {
      if i < PART_COUNT {
        assert PartAt(l, View(st.parts), i) && NothingOut(st.parts[i]);
        forall p: nat ensures S.Settled(st.parts[i], p) {
        }
      }
    }
    forall p: nat ensures RouteOk(l, st, p) && LossOk(l, st, p) {
    }
    assert IdleBut(st, 0) by {
      forall j | 0 <= j < PART_COUNT ensures st.parts[j].phase.Idle? {
        assert NothingOut(st.parts[j]);
      }
    }
  }

  // Over every interleaving of the owner and any number of freeing threads.
  lemma {:induction false} RunKeepsInv(l: Layout, states: seq<State>, steps: seq<Step>, n: nat)
    requires Run(l, states, steps) && n < |states|
    ensures Sound(l, states[n])
  {
    if n == 0 {
      InitialInv(l, states[0]);
    } else {
      RunKeepsInv(l, states, steps, n - 1);
      assert StepOk(l, states, steps, n - 1);
      StepKeepsInv(l, states[n - 1], steps[n - 1]);
    }
  }

  // No pointer is lost while the big-object bin keeps a page, or if the buffer lies high enough.
  lemma NothingLost(l: Layout, states: seq<State>, steps: seq<Step>, n: nat)
    requires Run(l, states, steps) && n < |states| && (l.bigThreshold >= 1 || l.buffer >= l.big)
    ensures states[n].lost == {}
  {
    RunKeepsInv(l, states, steps, n);
    SoundLosesNothing(l, states[n]);
  }

  lemma SoundLosesNothing(l: Layout, st: State)
    requires Sound(l, st) && (l.bigThreshold >= 1 || l.buffer >= l.big)
    ensures st.lost == {}
  {
    if p :| p in st.lost {
      assert LossOk(l, st, p);
      var i: nat :| i < BIG && HeldIn(st, i, p);
      HeldInView(l, st, i, p);
      HeldInside(l, View(st.parts), i, p);
      assert PartAt(l, View(st.parts), BIG) && PartAt(l, View(st.parts), i);
      PartInBuffer(l, i);
    }
  }

  // The pointer that the owner's step hands out was with no client of the whole heap, nor on its way back.
  lemma ReturnedWasFree(l: Layout, st: State, k: nat, step: S.Step)
    requires Sound(l, st) && Enabled(st, Owner(k, step)) && S.Returned(st.parts[k], step) != 0
    ensures var p := S.Returned(st.parts[k], step);
      && p !in st.routes && p !in st.lost && (forall i: nat :: !HeldIn(st, i, p))
      && AtClient(Apply(l, st, Owner(k, step)), p)
  {
    var p, t := S.Returned(st.parts[k], step), Apply(l, st, Owner(k, step));
    assert PartInv(st, k);
    S.ReturnedWasFree(st.parts[k], step);
    OwnerKeepsInv(l, st, k, step);
    assert HeldIn(t, k, p);
    forall i: nat ensures !HeldIn(st, i, p) {
      if HeldIn(st, i, p) {
        assert HeldIn(t, i, p);
        HeldInView(l, t, i, p);
      }
    }
    assert RouteOk(l, st, p) && LossOk(l, st, p);
  }

  // A client keeps its pointer until it enters deallocate with it.
  lemma StaysAtClient(l: Layout, st: State, step: Step, p: nat)
    requires Sound(l, st) && Enabled(st, step) && AtClient(st, p) && step != AskLow(p)
    ensures AtClient(Apply(l, st, step), p)
  {
    var t := Apply(l, st, step);
    var i: nat :| HeldIn(st, i, p);
    assert HeldIn(t, i, p) by {
      match step {
        case Owner(k, s) =>
          assert PartInv(st, k) && PartAt(l, View(st.parts), k);
          OwnerStepPart(l, k, st.parts[k], s);
        case ReadHead(q) => var j := RoutedRight(l, st, q);
        case _ =>
      }
    }
  }

  ghost predicate FreedBetween(steps: seq<Step>, i: nat, j: nat, p: nat) {
    exists k: nat :: EntersFree(steps, i, k, j, p)
  }

  ghost predicate EntersFree(steps: seq<Step>, i: nat, k: nat, j: nat, p: nat) {
    i < k < j <= |steps| && steps[k] == AskLow(p)
  }

  lemma {:induction false} AtClientUntilFreed(l: Layout, states: seq<State>, steps: seq<Step>, i: nat, j: nat, p: nat)
    requires Run(l, states, steps) && i < j < |states| && AtClient(states[i + 1], p)
    ensures AtClient(states[j], p) || FreedBetween(steps, i, j, p)
    decreases j
  {
    if j > i + 1 {
      AtClientUntilFreed(l, states, steps, i, j - 1, p);
      RunKeepsInv(l, states, steps, j - 1);
      assert StepOk(l, states, steps, j - 1);
      if FreedBetween(steps, i, j - 1, p) {
        var k: nat :| EntersFree(steps, i, k, j - 1, p);
        assert EntersFree(steps, i, k, j, p);
      } else if steps[j - 1] == AskLow(p) {
        assert EntersFree(steps, i, j - 1, j, p);
      } else {
        StaysAtClient(l, states[j - 1], steps[j - 1], p);
      }
    }
  }

  // The pointer a step hands out, 0 if it hands out none.
  ghost function Returned(st: State, step: Step): nat
    requires Enabled(st, step)
  {
    if step.Owner? then S.Returned(st.parts[step.k], step.step) else 0
  }

  // The heap never hands a pointer out twice without a client freeing it in between.
  lemma NeverHandedOutTwice(l: Layout, states: seq<State>, steps: seq<Step>, i: nat, j: nat)
    requires Run(l, states, steps) && i < j < |steps|
    requires Enabled(states[i], steps[i]) && Enabled(states[j], steps[j])
    requires Returned(states[i], steps[i]) == Returned(states[j], steps[j]) != 0
    ensures FreedBetween(steps, i, j, Returned(states[i], steps[i]))
  {
    var p := Returned(states[i], steps[i]);
    RunKeepsInv(l, states, steps, i);
    RunKeepsInv(l, states, steps, j);
    assert StepOk(l, states, steps, i);
    ReturnedWasFree(l, states[i], steps[i].k, steps[i].step);
    ReturnedWasFree(l, states[j], steps[j].k, steps[j].step);
    AtClientUntilFreed(l, states, steps, i, j, p);
  }
}
