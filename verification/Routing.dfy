// How a pointer finds its heap again: the thread-local heaps are asked by buffer range, in order; what
// none of them claims belongs to the central heap.
module Routing {
  import opened ArenaModel
  import H = HeapSpec

  // What routing needs to know of a heap. Its collections are type parameters so that the verifier
  // does not rank a heap above them.
  datatype ViewOf<S, R> = View(
    start: nat,       // m_buffer_address
    len: nat,         // m_buffer_length
    bytes: S,         // the bytes of its pages
    held: S,          // the pointers its clients hold
    room: R)          // each of them with every number of bytes that are its own

  type View = ViewOf<set<nat>, iset<(nat, nat)>>

  ghost predicate InRoom(v: View, p: nat, n: nat) {
    (p, n) in v.room
  }

  // Rooms belong to held pointers, start aligned, lie in the heap's pages and do not overlap.
  ghost predicate RoomOk(v: View) {
    && (forall p: nat, n: nat :: InRoom(v, p, n) ==> p in v.held && p % 16 == 0 && Range(p, n) <= v.bytes)
    && (forall p: nat, n: nat, q: nat, m: nat :: InRoom(v, p, n) && InRoom(v, q, m) && p != q ==>
      p + n <= q || q + m <= p)
  }

  // A heap as routing sees it.
  ghost function HeapView(start: nat, len: nat, ps: seq<H.Part>): View {
    View(start, len, H.HeapBytes(ps), H.HeapHeld(ps), iset p: nat, n: nat | H.Reserved(ps, p, n) :: (p, n))
  }

  lemma HeapViewOk(l: H.Layout, start: nat, len: nat, ps: seq<H.Part>)
    requires H.Inv(l, ps)
    ensures var v := HeapView(start, len, ps); v.held <= v.bytes && RoomOk(v)
  {
    var v := HeapView(start, len, ps);
    forall x | x in v.held ensures x in v.bytes {
      H.BoundedHeap(l, ps, x);
    }
    forall p: nat, n: nat | InRoom(v, p, n) ensures p in v.held && p % 16 == 0 && Range(p, n) <= v.bytes {
      var i, k := H.RoomInside(l, ps, p, n);
      H.HeldSomewhere(ps, p);
    }
    forall p: nat, n: nat, q: nat, m: nat | InRoom(v, p, n) && InRoom(v, q, m) && p != q
      ensures p + n <= q || q + m <= p
    {
      H.RoomApart(l, ps, p, n, q, m);
    }
  }

  // Element 0 is the central heap, the others are the thread-local heaps in slot order.
  ghost predicate ViewOk(vs: seq<View>, owned: set<nat>, history: set<nat>, i: nat) {
    i < |vs| ==>
      && vs[i].held <= vs[i].bytes <= owned && RoomOk(vs[i])
      && (i > 0 ==>
            && vs[i].bytes <= Range(vs[i].start, vs[i].len)
            && (vs[i].start != 0 ==> Range(vs[i].start, vs[i].len) <= history))
  }

  ghost predicate ViewsApart(vs: seq<View>, i: nat, j: nat) {
    i < |vs| && j < |vs| && i != j ==> vs[i].bytes !! vs[j].bytes
  }

  // No heap has pages in another local heap's buffer, not even in the part that was given back.
  ghost predicate OutOfRange(vs: seq<View>, i: nat, j: nat) {
    0 < i < |vs| && j < |vs| && i != j && vs[i].start != 0 ==> vs[j].bytes !! Range(vs[i].start, vs[i].len)
  }

  ghost predicate Inv(vs: seq<View>, owned: set<nat>, history: set<nat>, reuse: bool) {
    && |vs| >= 1 && owned <= history
    && (forall i: nat :: ViewOk(vs, owned, history, i))
    && (forall i: nat, j: nat :: ViewsApart(vs, i, j))
    && (!reuse ==> forall i: nat, j: nat :: OutOfRange(vs, i, j))
  }

  ghost predicate HolderAt(vs: seq<View>, i: nat, p: nat) {
    i < |vs| && p in vs[i].held
  }

  // Everything clients hold.
  ghost function AllHeld(vs: seq<View>): set<nat> {
    set i, p | 0 <= i < |vs| && p in vs[i].held && HolderAt(vs, i, p) :: p
  }

  lemma HolderSomewhere(vs: seq<View>, p: nat)
    ensures p in AllHeld(vs) <==> exists i: nat :: HolderAt(vs, i, p)
  {
    if i: nat :| HolderAt(vs, i, p) {
      assert p in AllHeld(vs);
    }
  }

  lemma HolderUnique(vs: seq<View>, owned: set<nat>, history: set<nat>, reuse: bool, i: nat, p: nat)
    requires Inv(vs, owned, history, reuse) && HolderAt(vs, i, p)
    ensures forall j: nat :: j != i ==> !HolderAt(vs, j, p)
  {
    assert ViewOk(vs, owned, history, i);
    forall j: nat | j != i ensures !HolderAt(vs, j, p) {
      assert ViewsApart(vs, i, j) && ViewOk(vs, owned, history, j);
    }
  }

  // ---- One heap changes, or a heap is added ----

  // The heap traded memory with the arena; what it gained was never handed out, unless addresses are reused.
  ghost predicate Trade(v: View, v': View, owned: set<nat>, owned': set<nat>, history: set<nat>, history': set<nat>,
      reuse: bool) {
    && v'.start == v.start && v'.len == v.len
    && owned' - v'.bytes == owned - v.bytes && v'.held <= v'.bytes <= owned' && RoomOk(v')
    && history <= history' && owned' <= history'
    && (!reuse ==> v'.bytes - v.bytes !! history)
  }

  // Without reuse of addresses it is enough that the gain is new.
  lemma FairTrade(v: View, v': View, owned: set<nat>, history: set<nat>, history': set<nat>)
    requires v'.start == v.start && v'.len == v.len && v'.held <= v'.bytes && RoomOk(v')
    requires v.bytes <= owned <= history <= history' && v'.bytes <= history' && v'.bytes - v.bytes !! history
    ensures Trade(v, v', owned, owned - v.bytes + v'.bytes, history, history', false)
  {
  }

  lemma OneHeapChanges(vs: seq<View>, k: nat, v: View, owned: set<nat>, owned': set<nat>, history: set<nat>,
      history': set<nat>,
                       reuse: bool)
    requires Inv(vs, owned, history, reuse) && k < |vs| && Trade(vs[k], v, owned, owned', history, history', reuse)
    requires k > 0 ==> v.bytes <= Range(v.start, v.len)
    ensures Inv(vs[k := v], owned', history', reuse)
  {
    var t := vs[k := v];
    forall i: nat | i < |vs| && i != k ensures vs[i].bytes <= owned - vs[k].bytes {
      assert ViewOk(vs, owned, history, i) && ViewsApart(vs, i, k);
    }
    forall i: nat ensures ViewOk(t, owned', history', i) {
      assert ViewOk(vs, owned, history, i);
      assert i < |vs| && i != k ==> vs[i].bytes <= owned' - v.bytes;
    }
    forall i: nat, j: nat ensures ViewsApart(t, i, j) {
      assert ViewsApart(vs, i, j);
      assert i < |vs| && i != k ==> vs[i].bytes <= owned' - v.bytes;
      assert j < |vs| && j != k ==> vs[j].bytes <= owned' - v.bytes;
    }
    if !reuse {
      forall i: nat, j: nat ensures OutOfRange(t, i, j) {
        assert OutOfRange(vs, i, j) && ViewOk(vs, owned, history, i);
      }
    }
  }

  lemma HeldTotal(vs: seq<View>, k: nat, v: View, owned: set<nat>, history: set<nat>, reuse: bool, p: nat)
    requires Inv(vs, owned, history, reuse) && k < |vs|
    ensures v.held == vs[k].held ==> AllHeld(vs[k := v]) == AllHeld(vs)
    ensures v.held == vs[k].held + {p} ==> AllHeld(vs[k := v]) == AllHeld(vs) + {p}
    ensures v.held == vs[k].held - {p} && p in vs[k].held ==> AllHeld(vs[k := v]) == AllHeld(vs) - {p}
  {
    var t := vs[k := v];
    forall x: nat ensures x in AllHeld(vs) <==> x in vs[k].held || exists j: nat :: j != k && HolderAt(vs, j, x) {
      HolderSomewhere(vs, x);
      assert HolderAt(vs, k, x) <==> x in vs[k].held;
    }
    forall x: nat ensures x in AllHeld(t) <==> x in v.held || exists j: nat :: j != k && HolderAt(vs, j, x) {
      HolderSomewhere(t, x);
      assert HolderAt(t, k, x) <==> x in v.held;
      forall j: nat | j != k ensures HolderAt(t, j, x) <==> HolderAt(vs, j, x) {
      }
    }
    if p in vs[k].held {
      HolderUnique(vs, owned, history, reuse, k, p);
    }
  }

  // A pointer just handed out by one heap was held from no heap.
  lemma NewPointer(vs: seq<View>, k: nat, v: View, owned: set<nat>, history: set<nat>, reuse: bool, p: nat)
    requires k < |vs| && Inv(vs[k := v], owned, history, reuse) && p in v.held && p !in vs[k].held
    ensures p !in AllHeld(vs)
  {
    HolderUnique(vs[k := v], owned, history, reuse, k, p);
    HolderSomewhere(vs, p);
    forall j: nat ensures !HolderAt(vs, j, p) {
      assert j != k ==> (HolderAt(vs[k := v], j, p) <==> HolderAt(vs, j, p));
    }
  }

  // ---- Room ----

  ghost predicate RoomAt(vs: seq<View>, i: nat, p: nat, n: nat) {
    i < |vs| && InRoom(vs[i], p, n)
  }

  // Some heap holds p for a client, with n bytes that are its own.
  ghost predicate RoomIn(vs: seq<View>, p: nat, n: nat) {
    exists i: nat :: RoomAt(vs, i, p, n)
  }

  ghost predicate ViewKeeps(v: View, v': View, freed: set<nat>) {
    forall p: nat, n: nat :: InRoom(v, p, n) && p !in freed ==> InRoom(v', p, n)
  }

  // What clients hold keeps its room, except for what was freed.
  ghost predicate Keeps(vs: seq<View>, t: seq<View>, freed: set<nat>) {
    forall p: nat, n: nat :: RoomIn(vs, p, n) && p !in freed ==> RoomIn(t, p, n)
  }

  lemma OneHeapKeeps(vs: seq<View>, k: nat, v: View, freed: set<nat>)
    requires k < |vs| && ViewKeeps(vs[k], v, freed)
    ensures Keeps(vs, vs[k := v], freed)
  {
    var t := vs[k := v];
    forall p: nat, n: nat | RoomIn(vs, p, n) && p !in freed ensures RoomIn(t, p, n) {
      var i: nat :| RoomAt(vs, i, p, n);
      assert RoomAt(t, i, p, n);
    }
  }

  lemma KeepsAll(vs: seq<View>)
    ensures Keeps(vs, vs, {})
  {
  }

  lemma KeepsTwice(vs: seq<View>, us: seq<View>, ts: seq<View>)
    requires Keeps(vs, us, {}) && Keeps(us, ts, {})
    ensures Keeps(vs, ts, {})
  {
  }

  // The central heap alone.
  lemma OneHeap(vs: seq<View>, owned: set<nat>, history: set<nat>, reuse: bool)
    requires |vs| == 1 && owned <= history && vs[0].held <= vs[0].bytes <= owned && RoomOk(vs[0])
    ensures Inv(vs, owned, history, reuse) && Idle(vs, 0) && AllHeld(vs) == vs[0].held
  {
    forall p: nat ensures p in AllHeld(vs) <==> p in vs[0].held {
      HolderSomewhere(vs, p);
      assert HolderAt(vs, 0, p) <==> p in vs[0].held;
    }
  }

  // Whatever heaps they come from, what clients hold is aligned, lies in owned memory, and no byte of it
  // belongs to two of them.
  lemma RoomsApart(vs: seq<View>, owned: set<nat>, history: set<nat>, reuse: bool, p: nat, n: nat, q: nat, m: nat)
    requires Inv(vs, owned, history, reuse) && RoomIn(vs, p, n) && RoomIn(vs, q, m)
    ensures p in AllHeld(vs) && p % 16 == 0 && Range(p, n) <= owned
    ensures p != q ==> p + n <= q || q + m <= p
  {
    var i: nat :| RoomAt(vs, i, p, n);
    var j: nat :| RoomAt(vs, j, q, m);
    assert ViewOk(vs, owned, history, i) && ViewOk(vs, owned, history, j) && HolderAt(vs, i, p);
    HolderSomewhere(vs, p);
    if i != j {
      assert ViewsApart(vs, i, j);
      assert p in vs[i].bytes && q in vs[j].bytes;
      assert p <= q < p + n ==> q in Range(p, n);
      assert q <= p < q + m ==> p in Range(q, m);
    }
  }

  // Only heaps in use hold anything.
  ghost predicate Idle(vs: seq<View>, active: nat) {
    forall i: nat :: i > active ==> !Busy(vs, i)
  }

  ghost predicate Busy(vs: seq<View>, i: nat) {
    i < |vs| && vs[i].held != {}
  }

  lemma StaysIdle(vs: seq<View>, k: nat, v: View, active: nat)
    requires Idle(vs, active) && k < |vs| && k <= active
    ensures Idle(vs[k := v], active)
  {
    var t := vs[k := v];
    forall i: nat | i > active ensures !Busy(t, i) {
      assert !Busy(vs, i);
    }
  }

  lemma MoreActive(vs: seq<View>, active: nat)
    requires Idle(vs, active)
    ensures Idle(vs, active + 1)
  {
    forall i: nat | i > active + 1 ensures !Busy(vs, i) {
    }
  }

  // A heap in use serves or refuses.
  lemma Served(vs: seq<View>, k: nat, v: View, owned: set<nat>, owned': set<nat>, history: set<nat>, history': set<nat>,
               reuse: bool, active: nat, p: nat)
    requires Inv(vs, owned, history, reuse) && k < |vs| && Trade(vs[k], v, owned, owned', history, history', reuse)
    requires k > 0 ==> v.bytes <= Range(v.start, v.len)
    requires Idle(vs, active) && k <= active && H.Gave(vs[k].held, v.held, p) && ViewKeeps(vs[k], v, {})
    ensures Inv(vs[k := v], owned', history', reuse) && Idle(vs[k := v], active)
    ensures H.Gave(AllHeld(vs), AllHeld(vs[k := v]), p) && (p != 0 ==> HolderAt(vs[k := v], k, p))
    ensures Keeps(vs, vs[k := v], {})
  {
    OneHeapKeeps(vs, k, v, {});
    OneHeapChanges(vs, k, v, owned, owned', history, history', reuse);
    HeldTotal(vs, k, v, owned, history, reuse, p);
    if p != 0 {
      NewPointer(vs, k, v, owned', history', reuse, p);
    }
    StaysIdle(vs, k, v, active);
  }

  // A heap takes a pointer back, or drops it.
  lemma TakenBack(vs: seq<View>, k: nat, v: View, owned: set<nat>, owned': set<nat>, history: set<nat>,
      history': set<nat>,
                  reuse: bool, active: nat, p: nat)
    requires Inv(vs, owned, history, reuse) && HolderAt(vs, k, p)
    requires Trade(vs[k], v, owned, owned', history, history', reuse)
    requires k > 0 ==> v.bytes <= Range(v.start, v.len)
    requires Idle(vs, active) && k <= active && ViewKeeps(vs[k], v, {p})
    ensures Inv(vs[k := v], owned', history', reuse) && Idle(vs[k := v], active)
    ensures v.held == vs[k].held ==> AllHeld(vs[k := v]) == AllHeld(vs)
    ensures v.held == vs[k].held - {p} ==> AllHeld(vs[k := v]) == AllHeld(vs) - {p}
    ensures Keeps(vs, vs[k := v], {p})
  {
    OneHeapKeeps(vs, k, v, {p});
    OneHeapChanges(vs, k, v, owned, owned', history, history', reuse);
    HeldTotal(vs, k, v, owned, history, reuse, p);
    StaysIdle(vs, k, v, active);
  }

  // A new heap with nothing held, or one that could not be created and has no pages.
  lemma HeapAdded(vs: seq<View>, v: View, owned: set<nat>, owned': set<nat>, history: set<nat>, history': set<nat>,
                  reuse: bool, active: nat)
    requires Inv(vs, owned, history, reuse) && v.held == {} && v.room == iset{}
    requires v.bytes <= Range(v.start, v.len) && v.bytes <= owned' && v.bytes !! owned
    requires v.start == 0 ==> v.bytes == {}
    requires owned <= owned' <= history' && history <= history'
    requires v.start != 0 ==> Range(v.start, v.len) <= history' && (!reuse ==> Range(v.start, v.len) !! history)
    requires Idle(vs, active)
    ensures Inv(vs + [v], owned', history', reuse) && Idle(vs + [v], active) && AllHeld(vs + [v]) == AllHeld(vs)
    ensures Keeps(vs, vs + [v], {})
  {
    forall p: nat, n: nat | RoomIn(vs, p, n) ensures RoomIn(vs + [v], p, n) {
      var i: nat :| RoomAt(vs, i, p, n);
      assert RoomAt(vs + [v], i, p, n);
    }
    var t := vs + [v];
    forall i: nat ensures ViewOk(t, owned', history', i) {
      assert ViewOk(vs, owned, history, i);
    }
    forall i: nat, j: nat ensures ViewsApart(t, i, j) {
      assert ViewsApart(vs, i, j) && ViewOk(vs, owned, history, i) && ViewOk(vs, owned, history, j);
    }
    if !reuse {
      forall i: nat, j: nat ensures OutOfRange(t, i, j) {
        assert OutOfRange(vs, i, j) && ViewOk(vs, owned, history, i) && ViewOk(vs, owned, history, j);
      }
    }
    forall i: nat | i > active ensures !Busy(t, i) {
      assert !Busy(vs, i);
    }
    forall p: nat ensures p in AllHeld(t) <==> p in AllHeld(vs) {
      HolderSomewhere(vs, p);
      HolderSomewhere(t, p);
      forall i: nat ensures HolderAt(t, i, p) <==> HolderAt(vs, i, p) {
      }
    }
  }

  // ---- Routing ----

  ghost predicate Claims(vs: seq<View>, i: nat, p: nat) {
    0 < i < |vs| && vs[i].start <= p < vs[i].start + vs[i].len
  }

  // The first of the first `active` local heaps that claims p, 0 (the central heap) if none does.
  ghost function Route(vs: seq<View>, active: nat, p: nat, i: nat): (r: nat)
    requires 1 <= i <= active + 1 <= |vs|
    ensures r == 0 || (i <= r <= active && Claims(vs, r, p))
    ensures forall j: nat :: i <= j <= active && (r == 0 || j < r) ==> !Claims(vs, j, p)
    decreases active + 1 - i
  {
    if i == active + 1 then 0 else if Claims(vs, i, p) then i else Route(vs, active, p, i + 1)
  }

  // No local heap asked before heap k, or for the central heap no local heap at all, has p inside its buffer.
  ghost predicate Unclaimed(vs: seq<View>, active: nat, k: nat, p: nat) {
    forall j: nat :: 1 <= j <= active && (k == 0 || j < k) ==> !Claims(vs, j, p)
  }

  // For any holder k of p that is exactly when the search reaches it.
  lemma RouteReaches(vs: seq<View>, owned: set<nat>, history: set<nat>, reuse: bool, active: nat, k: nat, p: nat)
    requires Inv(vs, owned, history, reuse) && active + 1 <= |vs| && Idle(vs, active) && HolderAt(vs, k, p)
    ensures Route(vs, active, p, 1) == k <==> Unclaimed(vs, active, k, p)
  {
    assert ViewOk(vs, owned, history, k);
    if k > active {
      assert Busy(vs, k);
    }
    if k > 0 {
      assert Claims(vs, k, p);
    }
  }

  // A heap whose buffer the system refused claims the addresses from 0 to its length.
  ghost predicate Low(vs: seq<View>, p: nat) {
    exists j: nat :: LowClaim(vs, j, p)
  }

  ghost predicate LowClaim(vs: seq<View>, j: nat, p: nat) {
    0 < j < |vs| && vs[j].start == 0 && p < vs[j].len
  }

  // Without reuse of addresses the search always finds the heap that served the pointer.
  lemma RouteIsRight(vs: seq<View>, owned: set<nat>, history: set<nat>, active: nat, k: nat, p: nat)
    requires Inv(vs, owned, history, false) && active + 1 <= |vs| && Idle(vs, active) && HolderAt(vs, k, p)
    requires !Low(vs, p)
    ensures Route(vs, active, p, 1) == k
  {
    RouteReaches(vs, owned, history, false, active, k, p);
    assert ViewOk(vs, owned, history, k);
    forall j: nat | 1 <= j <= active && j != k ensures !Claims(vs, j, p) {
      assert OutOfRange(vs, j, k) && !LowClaim(vs, j, p);
    }
  }

  lemma RouteFound(vs: seq<View>, owned: set<nat>, history: set<nat>, reuse: bool, active: nat, k: nat, p: nat)
    requires Inv(vs, owned, history, reuse) && active + 1 <= |vs| && Idle(vs, active) && HolderAt(vs, k, p)
    requires reuse || Low(vs, p) ==> Unclaimed(vs, active, k, p)
    ensures Route(vs, active, p, 1) == k
  {
    RouteReaches(vs, owned, history, reuse, active, k, p);
    if !reuse && !Low(vs, p) {
      RouteIsRight(vs, owned, history, active, k, p);
    }
  }
}
