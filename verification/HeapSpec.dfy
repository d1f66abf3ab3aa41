// The heap as a value: eight small-object bins and the big-object bin that follows them.
module HeapSpec {
  import opened Arith
  import opened Sequences
  import opened Words
  import opened Bits
  import opened Pow2Log2
  import opened ArenaModel
  import opened SegmentSpec
  import opened SegmentTheorems
  import opened SegmentLookup
  import opened SegmentList
  import opened SegmentDrain
  import M = SegmentRoom

  const PART_COUNT: nat := 9         // the bins and, last, the big-object bin
  const BIG: nat := 8

  // The collections are type parameters so that the verifier does not rank a heap above its parts.
  datatype PartOf<S, Q> = Part(seg: S, queue: Q)

  type Part = PartOf<Seg, seq<nat>>

  datatype LayoutOf<C> = Layout(
    local: bool,       // thread-local, so bounded
    small: nat,        // small-object logical page size
    big: nat,          // big-object logical page size
    counts: C,         // pages of each bin at creation
    buffer: nat,       // where the heap's buffer starts
    bigThreshold: nat) // recycling threshold of the big-object bin

  type Layout = LayoutOf<seq<nat>>

  datatype HeapParamsOf<C> = HeapParams(
    small: nat, counts: C, smallThreshold: nat, big: nat, bigThreshold: nat, coefficient: real, capacity: nat,
      coalesce: bool)

  type HeapParams = HeapParamsOf<seq<nat>>

  // Pages of the first i bins.
  function PagesBefore(counts: seq<nat>, i: nat): nat
    requires i <= |counts|
  {
    if i == 0 then 0 else PagesBefore(counts, i - 1) + counts[i - 1]
  }

  predicate ValidLayout(l: Layout) {
    |l.counts| == BIN_COUNT && l.small > 0 && l.big > 0
  }

  function PartStart(l: Layout, i: nat): nat
    requires |l.counts| == BIN_COUNT && i < PART_COUNT
  {
    l.buffer + PagesBefore(l.counts, i) * l.small
  }

  function PartLength(l: Layout, i: nat): nat
    requires |l.counts| == BIN_COUNT && i < PART_COUNT
  {
    if i == BIG then l.big else l.counts[i] * l.small
  }

  // calculate_required_buffer_size
  function RequiredBuffer(counts: seq<nat>, small: nat, big: nat): nat {
    PagesBefore(counts, |counts|) * small + big
  }

  // The part of the buffer that part i gets at creation.
  function Home(l: Layout, i: nat): set<nat>
    requires |l.counts| == BIN_COUNT && i < PART_COUNT
  {
    Range(PartStart(l, i), PartLength(l, i))
  }

  lemma {:induction false} PartsInOrder(l: Layout, i: nat, j: nat)
    requires |l.counts| == BIN_COUNT && i < j < PART_COUNT
    ensures PartStart(l, i) + PartLength(l, i) <= PartStart(l, j)
    decreases j
  {
    var before := PagesBefore(l.counts, j - 1);
    assert PagesBefore(l.counts, j) * l.small == before * l.small + l.counts[j - 1] * l.small by {
      assert PagesBefore(l.counts, j) == before + l.counts[j - 1];
    }
    if i < j - 1 {
      PartsInOrder(l, i, j - 1);
      ProductMonotone(0, l.counts[j - 1], l.small);
    }
  }

  // Every byte of the buffer belongs to exactly one bin, or to the big-object bin.
  lemma BinsTileBuffer(l: Layout, x: nat)
    requires |l.counts| == BIN_COUNT
    ensures x in Range(l.buffer, RequiredBuffer(l.counts, l.small, l.big))
      <==> exists i :: 0 <= i < PART_COUNT && x in Home(l, i)
    ensures forall i, j :: 0 <= i < j < PART_COUNT ==> !(x in Home(l, i) && x in Home(l, j))
  {
    forall i, j | 0 <= i < j < PART_COUNT ensures !(x in Home(l, i) && x in Home(l, j)) {
      PartsInOrder(l, i, j);
    }
    if x in Range(l.buffer, RequiredBuffer(l.counts, l.small, l.big)) {
      if x >= PartStart(l, BIG) {
        assert x in Home(l, BIG);
      } else {
        var i := BinOfByte(l, x, BIN_COUNT);
      }
    }
    if i :| 0 <= i < PART_COUNT && x in Home(l, i) {
      if i < BIG {
        PartsInOrder(l, i, BIG);
      }
    }
  }

  lemma {:induction false} BinOfByte(l: Layout, x: nat, n: nat) returns (i: nat)
    requires |l.counts| == BIN_COUNT && n <= BIN_COUNT && l.buffer <= x < l.buffer + PagesBefore(l.counts, n) * l.small
    ensures i < n && x in Home(l, i)
    decreases n
  {
    if x >= PartStart(l, n - 1) {
      assert PagesBefore(l.counts, n) * l.small == PagesBefore(l.counts, n - 1) * l.small + l.counts[n - 1] * l.small;
      i := n - 1;
    } else {
      i := BinOfByte(l, x, n - 1);
    }
  }

  // ---- What every call keeps ----

  ghost predicate PartOk(l: Layout, i: nat, part: Part)
    requires |l.counts| == BIN_COUNT
  {
    i < PART_COUNT ==>
      && SegmentSpec.Inv(part.seg) && QueueOk(part.seg, part.queue, 0)
      && part.seg.cfg.sizeClass == (if i == BIG then 0 else BinSizeClass(i))
      && part.seg.cfg.pageSize == (if i == BIG then l.big else l.small)
      && (i != BIG ==> PageAligned(part.seg))
      && (i == BIG ==> part.seg.cfg.threshold == l.bigThreshold)
      && (if l.local then Bytes(part.seg) <= Home(l, i) else part.queue == [])
      && (l.local && i == BIG && l.bigThreshold >= 1 ==> part.seg.slots != [])
  }

  ghost predicate PartsApart(ps: seq<Part>, i: nat, j: nat) {
    i < |ps| && j < |ps| && i != j ==> Bytes(ps[i].seg) !! Bytes(ps[j].seg)
  }

  ghost predicate PartAt(l: Layout, ps: seq<Part>, i: nat)
    requires |l.counts| == BIN_COUNT
  {
    i < |ps| ==> PartOk(l, i, ps[i])
  }

  ghost predicate Inv(l: Layout, ps: seq<Part>) {
    && ValidLayout(l) && |ps| == PART_COUNT
    && (forall i: nat :: PartAt(l, ps, i))
    && (forall i: nat, j: nat :: PartsApart(ps, i, j))
  }

  ghost predicate HeldBy(ps: seq<Part>, i: nat, p: nat) {
    i < |ps| && p in Held(ps[i].seg, ps[i].queue)
  }

  // What clients hold of the whole heap.
  ghost function HeapHeld(ps: seq<Part>): set<nat> {
    set i, p | 0 <= i < |ps| && p in Held(ps[i].seg, ps[i].queue) && HeldBy(ps, i, p) :: p
  }

  ghost predicate ByteOf(ps: seq<Part>, i: nat, x: nat) {
    i < |ps| && x in Bytes(ps[i].seg)
  }

  // The bytes of all pages.
  ghost function HeapBytes(ps: seq<Part>): set<nat> {
    set i, x | 0 <= i < |ps| && x in Bytes(ps[i].seg) && ByteOf(ps, i, x) :: x
  }

  lemma HeldSomewhere(ps: seq<Part>, p: nat)
    ensures p in HeapHeld(ps) <==> exists i: nat :: HeldBy(ps, i, p)
    ensures p in HeapBytes(ps) <==> exists i: nat :: ByteOf(ps, i, p)
  {
    if i: nat :| HeldBy(ps, i, p) {
      assert p in HeapHeld(ps);
    }
    if i: nat :| ByteOf(ps, i, p) {
      assert p in HeapBytes(ps);
    }
  }

  // A held pointer lies in a page of its own part, hence in no page of another part.
  lemma HeldInside(l: Layout, ps: seq<Part>, i: nat, p: nat)
    requires Inv(l, ps) && HeldBy(ps, i, p)
    ensures ByteOf(ps, i, p) && p > 0 && ps[i].seg.slots != []
    ensures forall j: nat :: j != i ==> !ByteOf(ps, j, p) && !HeldBy(ps, j, p)
  {
    HeldByte(l, ps, i, p);
    forall j: nat | j != i ensures !ByteOf(ps, j, p) && !HeldBy(ps, j, p) {
      assert PartsApart(ps, i, j);
      if HeldBy(ps, j, p) {
        HeldByte(l, ps, j, p);
      }
    }
  }

  lemma HeldByte(l: Layout, ps: seq<Part>, i: nat, p: nat)
    requires Inv(l, ps) && HeldBy(ps, i, p)
    ensures ByteOf(ps, i, p) && p > 0 && ps[i].seg.slots != []
  {
    assert PartAt(l, ps, i);
    var k := LiveSomewhere(ps[i].seg, p);
    LiveIndex(ps[i].seg, k, p);
    assert PageByte(ps[i].seg, k, p);
    BytesMember(ps[i].seg, p);
  }

  // ---- One part changes ----

  // The bytes of all parts but one.
  ghost function OtherBytes(ps: seq<Part>, i: nat): set<nat> {
    set j, x | 0 <= j < |ps| && j != i && x in Bytes(ps[j].seg) && ByteOf(ps, j, x) :: x
  }

  lemma OneAndOthers(ps: seq<Part>, i: nat)
    requires i < |ps| && forall j: nat, k: nat :: PartsApart(ps, j, k)
    ensures HeapBytes(ps) == Bytes(ps[i].seg) + OtherBytes(ps, i) && Bytes(ps[i].seg) !! OtherBytes(ps, i)
    ensures forall j: nat :: j < |ps| && j != i ==> Bytes(ps[j].seg) <= OtherBytes(ps, i)
  {
    forall j: nat | j < |ps| && j != i ensures Bytes(ps[i].seg) !! Bytes(ps[j].seg) {
      assert PartsApart(ps, i, j);
    }
    forall x | x in Bytes(ps[i].seg) ensures x in HeapBytes(ps) {
      assert ByteOf(ps, i, x);
    }
    forall j: nat, x | j < |ps| && j != i && x in Bytes(ps[j].seg) ensures x in OtherBytes(ps, i) {
      assert ByteOf(ps, j, x);
    }
  }

  lemma FewerBytes(ps: seq<Part>, qs: seq<Part>)
    requires |ps| == |qs| && forall i: nat, x: nat :: ByteOf(qs, i, x) ==> ByteOf(ps, i, x)
    ensures HeapBytes(qs) <= HeapBytes(ps)
  {
    forall x | x in HeapBytes(qs) ensures x in HeapBytes(ps) {
      HeldSomewhere(qs, x);
      var i: nat :| ByteOf(qs, i, x);
      HeldSomewhere(ps, x);
    }
  }

  lemma ReplacePart(l: Layout, ps: seq<Part>, i: nat, part: Part, owned: set<nat>, owned': set<nat>)
    requires Inv(l, ps) && i < PART_COUNT && PartOk(l, i, part)
    requires HeapBytes(ps) <= owned && Bytes(part.seg) <= owned'
    requires owned' - Bytes(part.seg) == owned - Bytes(ps[i].seg)
    ensures var t := ps[i := part];
      && Inv(l, t) && HeapBytes(t) <= owned' && owned' - HeapBytes(t) == owned - HeapBytes(ps)
      && HeapBytes(t) - HeapBytes(ps) <= Bytes(part.seg) - Bytes(ps[i].seg)
  {
    var t := ps[i := part];
    OneAndOthers(ps, i);
    assert OtherBytes(ps, i) <= owned - Bytes(ps[i].seg);
    forall j: nat ensures PartAt(l, t, j) {
      assert PartAt(l, ps, j);
    }
    forall j: nat, k: nat ensures PartsApart(t, j, k) {
      assert PartsApart(ps, j, k);
    }
    OneAndOthers(t, i);
    assert OtherBytes(t, i) == OtherBytes(ps, i) by {
      forall j: nat, x: nat ensures j != i ==> (ByteOf(t, j, x) <==> ByteOf(ps, j, x)) {
      }
    }
    assert owned' - HeapBytes(t) == (owned' - Bytes(part.seg)) - OtherBytes(ps, i);
    assert owned - HeapBytes(ps) == (owned - Bytes(ps[i].seg)) - OtherBytes(ps, i);
  }

  lemma HeldChanges(l: Layout, ps: seq<Part>, i: nat, part: Part, p: nat)
    requires Inv(l, ps) && i < PART_COUNT
    ensures var before, after := Held(ps[i].seg, ps[i].queue), Held(part.seg, part.queue);
      && (after == before + {p} ==> HeapHeld(ps[i := part]) == HeapHeld(ps) + {p})
      && (after == before ==> HeapHeld(ps[i := part]) == HeapHeld(ps))
      && (after == before - {p} && p in before ==> HeapHeld(ps[i := part]) == HeapHeld(ps) - {p})
  {
    var t := ps[i := part];
    var before, after := Held(ps[i].seg, ps[i].queue), Held(part.seg, part.queue);
    forall x: nat ensures x in HeapHeld(ps) <==> x in before || exists j: nat :: j != i && HeldBy(ps, j, x) {
      HeldSomewhere(ps, x);
      assert HeldBy(ps, i, x) <==> x in before;
    }
    forall x: nat ensures x in HeapHeld(t) <==> x in after || exists j: nat :: j != i && HeldBy(ps, j, x) {
      HeldSomewhere(t, x);
      assert HeldBy(t, i, x) <==> x in after;
      forall j: nat | j != i ensures HeldBy(t, j, x) <==> HeldBy(ps, j, x) {
      }
    }
    if p in before {
      assert HeldBy(ps, i, p);
      HeldInside(l, ps, i, p);
    }
  }

  // A served request adds one pointer that nobody held, a refused one none.
  ghost predicate Gave(before: set<nat>, after: set<nat>, ptr: nat) {
    if ptr == 0 then after == before else ptr !in before && after == before + {ptr}
  }

  // The part a request goes to, and the size it asks for there.
  function ServingPart(size: nat): (k: nat)
    ensures k < PART_COUNT && (k == BIG <==> size > LARGEST_SIZE_CLASS)
  {
    if size > LARGEST_SIZE_CLASS then BIG
    else
      AdjustedFits(size);
      BinIndex(AdjustSize(size))
  }

  lemma AdjustedFits(size: nat)
    requires size <= LARGEST_SIZE_CLASS
    ensures AdjustSize(size) < WORD_LIMIT && BinIndex(AdjustSize(size)) < BIN_COUNT
  {
    var i := SmallRequestBin(size);
    BinOfSizeClass(i);
  }

  function AskedSize(size: nat): nat {
    if size > LARGEST_SIZE_CLASS then size else AdjustSize(size)
  }

  // What a bounded heap answers.
  ghost function BoundedAnswer(l: Layout, ps: seq<Part>, size: nat): nat
    requires Inv(l, ps) && l.local
  {
    var k := ServingPart(size);
    assert PartAt(l, ps, k);
    AllocateLocal(ps[k].seg, ps[k].queue, AskedSize(size)).1
  }

  // What an unbounded part serves as long as the arena answers.
  predicate PartServes(l: Layout, k: nat, size: nat) {
    if k == BIG then size + 80 <= l.big else size + HEADER <= l.small
  }

  // What a heap serves then: every small size, and big ones that leave 80 bytes of a big page.
  predicate HeapServes(big: nat, size: nat) {
    size <= LARGEST_SIZE_CLASS || size + 80 <= big
  }

  lemma ServesAsked(l: Layout, ps: seq<Part>, k: nat, size: nat)
    requires Inv(l, ps) && k < PART_COUNT
    ensures k == BIG && size > LARGEST_SIZE_CLASS ==> (PartServes(l, k, size) <==> HeapServes(l.big, size))
    ensures k != BIG ==> PartServes(l, k, BinSizeClass(k)) && Served(ps[k].seg.cfg, BinSizeClass(k))
  {
    assert PartAt(l, ps, k);
    if k != BIG {
      BinClassFits(k);
    }
  }

  // A bounded heap takes what was queued last for the bin; if nothing was, it refuses a small request exactly if
  // all pages of the bin do, and a big one exactly if it is too large or all pages of the drained bin refuse it.
  lemma BoundedAnswerExact(l: Layout, ps: seq<Part>, size: nat)
    requires Inv(l, ps) && l.local
    ensures var k, ptr := ServingPart(size), BoundedAnswer(l, ps, size);
      var part := ps[k];
      var d := Drain(part.seg, part.queue, 0, k != BIG).0;
      && AllUsable(d) && (part.queue == [] ==> d == part.seg)
      && (k != BIG && part.queue != [] ==> ptr == part.queue[|part.queue| - 1] != 0)
      && (k != BIG && part.queue == [] ==> (ptr == 0 <==> AllRefuse(d, BinSizeClass(k))))
      && (k == BIG ==> (ptr == 0 <==> size + HEADER > l.big || AllRefuse(d, size)))
  {
    var k := ServingPart(size);
    var part := ps[k];
    assert PartAt(l, ps, k);
    LocalServes(part.seg, part.queue, AskedSize(size));
    if k != BIG {
      var i := SmallRequestBin(size);
      BinClassFits(k);
    }
  }

  lemma PartServed(l: Layout, ps: seq<Part>, i: nat, part: Part, owned: set<nat>, owned': set<nat>, ptr: nat)
    requires Inv(l, ps) && i < PART_COUNT && PartOk(l, i, part)
    requires HeapBytes(ps) <= owned && Bytes(part.seg) <= owned'
    requires owned' - Bytes(part.seg) == owned - Bytes(ps[i].seg)
    requires Gave(Held(ps[i].seg, ps[i].queue), Held(part.seg, part.queue), ptr)
    ensures var t := ps[i := part];
      && Inv(l, t) && HeapBytes(t) <= owned' && owned' - HeapBytes(t) == owned - HeapBytes(ps)
      && HeapBytes(t) - HeapBytes(ps) <= Bytes(part.seg) - Bytes(ps[i].seg)
      && Gave(HeapHeld(ps), HeapHeld(t), ptr) && (ptr != 0 ==> HeldBy(t, i, ptr))
  {
    var t := ps[i := part];
    ReplacePart(l, ps, i, part, owned, owned');
    HeldChanges(l, ps, i, part, ptr);
    if ptr != 0 {
      HeldInside(l, t, i, ptr);
      HeldSomewhere(ps, ptr);
      forall j: nat ensures !HeldBy(ps, j, ptr) {
        assert j != i ==> (HeldBy(t, j, ptr) <==> HeldBy(ps, j, ptr));
      }
    }
  }

  lemma PageAddress(l: Layout, ps: seq<Part>, i: nat, ptr: nat)
    requires Inv(l, ps) && i < PART_COUNT
    ensures AddrAt(ps[i].seg.slots, 0) == 0 <==> ps[i].seg.slots == []
    ensures HeldBy(ps, i, ptr) ==> ptr > 0 && ps[i].seg.slots != []
  {
    assert PartAt(l, ps, i);
    InvDistinct(ps[i].seg);
    if HeldBy(ps, i, ptr) {
      HeldInside(l, ps, i, ptr);
    }
  }

  lemma PartFreed(l: Layout, ps: seq<Part>, i: nat, part: Part, owned: set<nat>, owned': set<nat>, ptr: nat)
    requires Inv(l, ps) && i < PART_COUNT && PartOk(l, i, part)
    requires HeapBytes(ps) <= owned && Bytes(part.seg) <= owned'
    requires owned' - Bytes(part.seg) == owned - Bytes(ps[i].seg) && Bytes(part.seg) <= Bytes(ps[i].seg)
    requires ps[i].seg.slots != [] ==> HeldBy(ps, i, ptr)
    requires var before, after := Held(ps[i].seg, ps[i].queue), Held(part.seg, part.queue);
      after == if ps[i].seg.slots == [] then before else before - {ptr}
    ensures var t := ps[i := part];
      && Inv(l, t) && HeapBytes(t) <= owned' && owned' - HeapBytes(t) == owned - HeapBytes(ps)
      && HeapBytes(t) <= HeapBytes(ps)
      && HeapHeld(t) == if ps[i].seg.slots == [] then HeapHeld(ps) else HeapHeld(ps) - {ptr}
  {
    ReplacePart(l, ps, i, part, owned, owned');
    HeldChanges(l, ps, i, part, ptr);
  }

  // A bounded heap never has a page outside its buffer.
  lemma BoundedHeap(l: Layout, ps: seq<Part>, x: nat)
    requires Inv(l, ps)
    ensures l.local && x in HeapBytes(ps) ==> x in Range(l.buffer, RequiredBuffer(l.counts, l.small, l.big))
    ensures x in HeapHeld(ps) ==> x in HeapBytes(ps)
  {
    HeldSomewhere(ps, x);
    if x in HeapHeld(ps) {
      var i: nat :| HeldBy(ps, i, x);
      HeldInside(l, ps, i, x);
    }
    if l.local && x in HeapBytes(ps) {
      var i: nat :| ByteOf(ps, i, x);
      assert PartAt(l, ps, i);
      BinsTileBuffer(l, x);
    }
  }

  // ---- Room ----

  // The pointer is held, and n bytes from it on are its own.
  ghost predicate ReservedBy(ps: seq<Part>, i: nat, p: nat, n: nat) {
    HeldBy(ps, i, p) && M.Reserved(ps[i].seg, p, n)
  }

  ghost predicate Reserved(ps: seq<Part>, p: nat, n: nat) {
    exists i: nat :: ReservedBy(ps, i, p, n)
  }

  // What clients hold keeps its room, except for what was freed.
  ghost predicate PartKeeps(before: Part, after: Part, freed: set<nat>) {
    forall p: nat, n: nat ::
      M.Reserved(before.seg, p, n) && p in Held(before.seg, before.queue) && p !in freed
      ==> M.Reserved(after.seg, p, n) && p in Held(after.seg, after.queue)
  }

  ghost predicate Keeps(ps: seq<Part>, t: seq<Part>, freed: set<nat>) {
    forall p: nat, n: nat :: Reserved(ps, p, n) && p !in freed ==> Reserved(t, p, n)
  }

  lemma HeapKeeps(ps: seq<Part>, i: nat, part: Part, freed: set<nat>)
    requires i < |ps| && PartKeeps(ps[i], part, freed)
    ensures Keeps(ps, ps[i := part], freed)
  {
    var t := ps[i := part];
    forall p: nat, n: nat | Reserved(ps, p, n) && p !in freed ensures Reserved(t, p, n) {
      var j: nat :| ReservedBy(ps, j, p, n);
      assert ReservedBy(t, j, p, n);
    }
  }

  // Reserved bytes start at a multiple of 16 and lie in one page of the heap, behind that page's header.
  lemma RoomInside(l: Layout, ps: seq<Part>, p: nat, n: nat) returns (i: nat, k: nat)
    requires Inv(l, ps) && Reserved(ps, p, n)
    ensures ReservedBy(ps, i, p, n) && k < |ps[i].seg.slots| && p % 16 == 0
    ensures var a := ps[i].seg.slots[k].addr; a + HEADER <= p && p + n <= a + ps[i].seg.cfg.pageSize
    ensures forall x: nat :: p <= x < p + n ==> ByteOf(ps, i, x) && x in HeapBytes(ps)
  {
    i :| ReservedBy(ps, i, p, n);
    assert PartAt(l, ps, i);
    ClassAligned(l, i, ps[i]);
    k := M.ReservedInside(ps[i].seg, p, n);
    forall x: nat | p <= x < p + n ensures ByteOf(ps, i, x) && x in HeapBytes(ps) {
      M.ReservedBytes(ps[i].seg, p, n, x);
      assert ByteOf(ps, i, x);
      HeldSomewhere(ps, x);
    }
  }

  // The room that a part gave is at least what the heap was asked for.
  lemma RoomAsked(l: Layout, ps: seq<Part>, before: seq<Part>, k: nat, p: nat, asked: nat, size: nat)
    requires |l.counts| == BIN_COUNT && k < PART_COUNT && k < |before| && PartAt(l, before, k)
    requires if k == BIG then asked == size else size <= BinSizeClass(k)
    requires p != 0 ==> HeldBy(ps, k, p) && M.Reserved(ps[k].seg, p, M.Room(before[k].seg, asked))
    ensures p != 0 ==> Reserved(ps, p, size)
  {
    if p != 0 {
      M.LessReserved(ps[k].seg, p, M.Room(before[k].seg, asked), size);
      assert ReservedBy(ps, k, p, size);
    }
  }

  lemma ClassAligned(l: Layout, i: nat, part: Part)
    requires |l.counts| == BIN_COUNT && i < PART_COUNT && PartOk(l, i, part)
    ensures M.ClassAligned(part.seg)
  {
    if i != BIG {
      ClassMultiple(i);
    }
  }

  lemma {:induction false} ClassMultiple(i: nat)
    ensures BinSizeClass(i) % 16 == 0
  {
    if i > 0 {
      ClassMultiple(i - 1);
    }
  }

  // They overlap no byte of another held object, and no page header.
  lemma RoomApart(l: Layout, ps: seq<Part>, p: nat, n: nat, p': nat, n': nat)
    requires Inv(l, ps) && Reserved(ps, p, n) && Reserved(ps, p', n') && p != p'
    ensures p + n <= p' || p' + n' <= p
  {
    var i, k := RoomInside(l, ps, p, n);
    var i', k' := RoomInside(l, ps, p', n');
    assert PartAt(l, ps, i);
    if i == i' {
      M.ReservedApart(ps[i].seg, p, n, p', n');
    } else {
      HeldInside(l, ps, i, p);
      HeldInside(l, ps, i', p');
      assert p <= p' < p + n ==> ByteOf(ps, i, p');
      assert p' <= p < p' + n' ==> ByteOf(ps, i', p);
    }
  }

  lemma RangesApart(a: nat, n: nat, b: nat, m: nat)
    requires Range(a, n) !! Range(b, m) && n > 0 && m > 0
    ensures a + n <= b || b + m <= a
  {
    assert a in Range(a, n) && b in Range(b, m);
  }

  lemma RoomOffHeaders(l: Layout, ps: seq<Part>, p: nat, n: nat, j: nat, k: nat)
    requires Inv(l, ps) && Reserved(ps, p, n) && j < PART_COUNT && k < |ps[j].seg.slots|
    ensures var a := ps[j].seg.slots[k].addr; p + n <= a || a + HEADER <= p
  {
    var i, m := RoomInside(l, ps, p, n);
    assert PartAt(l, ps, i) && PartAt(l, ps, j);
    if i == j {
      M.ReservedOffHeaders(ps[i].seg, p, n, k);
    } else {
      assert PartsApart(ps, i, j);
      PageBytes(ps[j].seg, k);
      PageBytes(ps[i].seg, m);
      RangesApart(ps[j].seg.slots[k].addr, ps[j].seg.cfg.pageSize, ps[i].seg.slots[m].addr, ps[i].seg.cfg.pageSize);
    }
  }

  // ---- What a call leaves in the part it went to ----

  lemma BoundedPart(l: Layout, i: nat, part: Part, size: nat, t: Seg, ptr: nat)
    requires ValidLayout(l) && l.local && i < PART_COUNT && PartOk(l, i, part)
    requires (t, ptr) == AllocateLocal(part.seg, part.queue, size)
    requires i != BIG ==> ValidConfig(t.cfg) && PageAligned(t)
    ensures PartOk(l, i, Part(t, [])) && Gave(Held(part.seg, part.queue), Held(t, []), ptr)
    ensures PartKeeps(part, Part(t, []), {}) && (ptr != 0 ==> M.Reserved(t, ptr, M.Room(part.seg, size)))
  {
    LocalContract(part.seg, part.queue, size);
    M.LocalReserves(part.seg, part.queue, size);
  }

  lemma UnboundedPart(l: Layout, i: nat, part: Part, size: nat, buffer: nat, t: Seg, ptr: nat)
    requires ValidLayout(l) && !l.local && i < PART_COUNT && PartOk(l, i, part)
    requires AllUsable(part.seg) && !DividesByZero(part.seg, size)
    requires buffer != 0 ==> Countable(part.seg.cfg, size)
                             && GoodBuffer(part.seg, buffer, DesiredPages(part.seg.cfg, |part.seg.slots|, size))
    requires (t, ptr) == AllocateUnbounded(part.seg, size, buffer)
    requires i != BIG ==> ValidConfig(t.cfg) && PageAligned(t)
    ensures PartOk(l, i, Part(t, [])) && Gave(Held(part.seg, part.queue), Held(t, []), ptr)
    ensures PartKeeps(part, Part(t, []), {}) && (ptr != 0 ==> M.Reserved(t, ptr, M.Room(part.seg, size)))
  {
    UnboundedContract(part.seg, size, buffer);
    M.UnboundedReserves(part.seg, size, buffer);
    assert Held(t, []) == LivePtrs(t);
  }

  lemma FreedPart(l: Layout, i: nat, part: Part, ptr: nat, t: Seg, queue: seq<nat>)
    requires ValidLayout(l) && i < PART_COUNT && PartOk(l, i, part) && ptr in Held(part.seg, part.queue) && ptr > 0
    requires if l.local then t == part.seg && queue == part.queue + [ptr]
             else t == SegmentSpec.Deallocate(part.seg, ptr) && queue == part.queue
    requires i != BIG ==> ValidConfig(t.cfg) && PageAligned(t)
    ensures PartOk(l, i, Part(t, queue)) && Held(t, queue) == Held(part.seg, part.queue) - {ptr}
    ensures Bytes(t) <= Bytes(part.seg) && PartKeeps(part, Part(t, queue), {ptr})
  {
    if l.local {
      forall j: nat, k: nat ensures Differ(queue, j, k) {
        assert Differ(part.queue, j, k);
      }
    } else {
      DeallocateContract(part.seg, ptr);
      DeallocateBytes(part.seg, ptr);
      M.DeallocateReserves(part.seg, ptr);
    }
  }

  // What giving a pointer back leaves of its part: a bounded part queues it, another one frees it, and a part
  // without pages drops it.
  ghost function TakenBack(l: Layout, part: Part, ptr: nat): Part {
    if part.seg.slots == [] then part
    else if l.local then Part(part.seg, part.queue + [ptr])
    else Part(Deallocate(part.seg, ptr), part.queue)
  }

  // ---- Routing by address alone ----

  // owns_pointer of the big-object bin: a range test when bounded, a search of its pages otherwise.
  ghost predicate BigOwns(l: Layout, ps: seq<Part>, p: nat)
    requires |ps| == PART_COUNT
  {
    if l.local then AddrAt(ps[BIG].seg.slots, 0) <= p < AddrAt(ps[BIG].seg.slots, 0) + l.big
    else p in Bytes(ps[BIG].seg)
  }

  // A bounded big-object bin has given its only page back and takes the first addresses for its own.
  predicate Misrouted(l: Layout, ps: seq<Part>, p: nat)
    requires |ps| == PART_COUNT
  {
    l.local && ps[BIG].seg.slots == [] && p < l.big
  }

  lemma BoundedBigBin(l: Layout, ps: seq<Part>)
    requires Inv(l, ps) && l.local && ps[BIG].seg.slots != []
    ensures AddrAt(ps[BIG].seg.slots, 0) == PartStart(l, BIG)
  {
    assert PartAt(l, ps, BIG);
    var a := ps[BIG].seg.slots[0].addr;
    PageBytes(ps[BIG].seg, 0);
    assert a in Range(a, l.big) && a + l.big - 1 in Range(a, l.big);
  }

  // With a recycling threshold of 1 or more that never happens: the bin keeps its page.
  lemma ThresholdKeepsBigPage(l: Layout, ps: seq<Part>, p: nat)
    requires Inv(l, ps) && l.bigThreshold >= 1
    ensures !Misrouted(l, ps, p)
  {
    assert PartAt(l, ps, BIG);
  }

  // The big-object bin recognises exactly its own pointers, except in the state above.
  lemma BigRouting(l: Layout, ps: seq<Part>, i: nat, p: nat)
    requires Inv(l, ps) && HeldBy(ps, i, p)
    ensures BigOwns(l, ps, p) <==> i == BIG || Misrouted(l, ps, p)
    ensures i == BIG ==> !Misrouted(l, ps, p)
  {
    HeldInside(l, ps, i, p);
    assert PartAt(l, ps, i);
    assert ByteOf(ps, BIG, p) <==> i == BIG;
    if l.local {
      if ps[BIG].seg.slots != [] {
        BoundedBigBin(l, ps);
      }
      if i < BIG {
        PartsInOrder(l, i, BIG);
      }
    }
  }

  lemma FirstByte(s: Seg, k: nat)
    requires SegmentSpec.Inv(s) && k < |s.slots|
    ensures s.slots[k].addr in Bytes(s)
  {
    PageBytes(s, k);
    assert s.slots[k].addr in Range(s.slots[k].addr, s.cfg.pageSize);
  }

  // The masked address of a small object is a page of its own bin and of no other part.
  lemma MaskRouting(l: Layout, ps: seq<Part>, i: nat, p: nat)
    requires Inv(l, ps) && HeldBy(ps, i, p) && i < BIG && l.small < WORD_LIMIT && IsPow2(l.small)
    ensures HasPage(ps[i].seg.slots, MaskedPage(p, l.small))
    ensures forall j: nat :: j < PART_COUNT && j != i ==> !HasPage(ps[j].seg.slots, MaskedPage(p, l.small))
  {
    assert PartAt(l, ps, i);
    var s, a := ps[i].seg, MaskedPage(p, l.small);
    var k := LiveSomewhere(s, p);
    LiveIndex(s, k, p);
    LookupsAgree(s, p);
    assert PageAt(s.slots, k, a);
    FirstByte(s, k);
    forall j: nat | j < PART_COUNT && j != i ensures !HasPage(ps[j].seg.slots, a) {
      assert PartAt(l, ps, j) && PartsApart(ps, i, j);
      if HasPage(ps[j].seg.slots, a) {
        var m: nat :| PageAt(ps[j].seg.slots, m, a);
        FirstByte(ps[j].seg, m);
      }
    }
  }

  // The size class in the page header at address a: memory is one, so any part's page may be there.
  ghost function ClassAt(ps: seq<Part>, a: nat, i: nat): nat
    requires i <= |ps|
    decreases |ps| - i
  {
    if i == |ps| then 0
    else if HasPage(ps[i].seg.slots, a) then ps[i].seg.cfg.sizeClass
    else ClassAt(ps, a, i + 1)
  }

  lemma {:induction false} ClassOfPage(ps: seq<Part>, a: nat, i: nat, j: nat)
    requires j <= i < |ps| && HasPage(ps[i].seg.slots, a)
    requires forall m: nat :: m < |ps| && m != i ==> !HasPage(ps[m].seg.slots, a)
    ensures ClassAt(ps, a, j) == ps[i].seg.cfg.sizeClass
    decreases i - j
  {
    if j < i {
      ClassOfPage(ps, a, i, j + 1);
    }
  }

  // The header found by mask is that of the pointer's own bin.
  lemma ClassOfOwner(l: Layout, ps: seq<Part>, i: nat, p: nat)
    requires Inv(l, ps) && HeldBy(ps, i, p) && i < BIG && l.small < WORD_LIMIT && IsPow2(l.small)
    ensures ClassAt(ps, MaskedPage(p, l.small), 0) == BinSizeClass(i)
  {
    MaskRouting(l, ps, i, p);
    assert PartAt(l, ps, i);
    ClassOfPage(ps, MaskedPage(p, l.small), i, 0);
  }

  // ---- Creation ----

  function PartConfig(p: HeapParams, i: nat): Config {
    if i == BIG then Config(p.big, 0, p.coalesce, p.bigThreshold, 0.0)
    else Config(p.small, BinSizeClass(i), p.coalesce, p.smallThreshold, p.coefficient)
  }

  function PartPages(p: HeapParams, i: nat): nat
    requires |p.counts| == BIN_COUNT && i < PART_COUNT
  {
    if i == BIG then 1 else p.counts[i]
  }

  ghost predicate FreshPart(l: Layout, p: HeapParams, i: nat, part: Part)
    requires |l.counts| == BIN_COUNT && |p.counts| == BIN_COUNT
  {
    i < PART_COUNT ==>
      && part.queue == [] && ValidConfig(PartConfig(p, i))
      && part.seg == Seg(PartConfig(p, i), FreshSlots(PartConfig(p, i), PartStart(l, i), PartPages(p, i)), 0)
      && (i != BIG ==> PageAligned(part.seg))
  }

  ghost predicate AllFresh(l: Layout, p: HeapParams, ps: seq<Part>)
    requires |l.counts| == BIN_COUNT && |p.counts| == BIN_COUNT
  {
    forall i :: 0 <= i < |ps| ==> FreshPart(l, p, i, ps[i])
  }

  lemma FreshOneMore(l: Layout, p: HeapParams, ps: seq<Part>, part: Part)
    requires |l.counts| == BIN_COUNT && |p.counts| == BIN_COUNT && AllFresh(l, p, ps) && FreshPart(l, p, |ps|, part)
    ensures AllFresh(l, p, ps + [part])
  {
  }

  predicate GoodPlan(l: Layout, p: HeapParams) {
    && |p.counts| == BIN_COUNT && l.counts == p.counts && l.small == p.small && l.big == p.big
    && l.bigThreshold == p.bigThreshold
    && p.small > 0 && p.small % 4096 == 0 && p.big % 4096 == 0 && p.big > 0
    && 0 < l.buffer && l.buffer % 4096 == 0
    && l.buffer + RequiredBuffer(l.counts, l.small, l.big) <= WORD_LIMIT
  }

  lemma PartInBuffer(l: Layout, i: nat)
    requires |l.counts| == BIN_COUNT && i < PART_COUNT
    ensures l.buffer <= PartStart(l, i)
    ensures PartStart(l, i) + PartLength(l, i) <= l.buffer + RequiredBuffer(l.counts, l.small, l.big)
  {
    ProductMonotone(0, PagesBefore(l.counts, i), l.small);
    if i < BIG {
      PartsInOrder(l, i, BIG);
    }
  }

  lemma PartPlace(l: Layout, p: HeapParams, i: nat)
    requires GoodPlan(l, p) && i < PART_COUNT
    ensures PartStart(l, i) % 4096 == 0
    ensures PartLength(l, i) == PartPages(p, i) * PartConfig(p, i).pageSize
  {
    var before := PagesBefore(l.counts, i);
    DividesProduct(before, l.small, 4096);
    DividesSum(l.buffer, before * l.small, 4096);
  }

  lemma PartAligned(l: Layout, p: HeapParams, i: nat)
    requires GoodPlan(l, p) && Divisible(l.buffer, p.small) && i < PART_COUNT
    ensures Divisible(PartStart(l, i), p.small)
  {
    DivisibleMultiple(PagesBefore(l.counts, i), p.small);
    DivisibleSum(l.buffer, PagesBefore(l.counts, i) * p.small, p.small);
  }

  lemma NextPart(counts: seq<nat>, small: nat, i: nat)
    requires i < |counts|
    ensures PagesBefore(counts, i + 1) * small == PagesBefore(counts, i) * small + counts[i] * small
    ensures counts[i] * small >= 0
  {
  }

  lemma BufferSizes(p: HeapParams)
    requires |p.counts| == BIN_COUNT && p.small > 0 && p.small % 4096 == 0 && p.big % 4096 == 0 && p.big % p.small == 0
    ensures RequiredBuffer(p.counts, p.small, p.big) % 4096 == 0
    ensures Divisible(RequiredBuffer(p.counts, p.small, p.big), p.small) && Divisible(p.big, p.small)
  {
    var n := PagesBefore(p.counts, |p.counts|);
    DividesProduct(n, p.small, 4096);
    DividesSum(n * p.small, p.big, 4096);
    DivisibleMod(p.big, p.small);
    DivisibleMultiple(n, p.small);
    DivisibleSum(n * p.small, p.big, p.small);
  }

  lemma {:induction false} BinClassFits(i: nat)
    requires i < BIN_COUNT
    ensures BinSizeClass(i) <= LARGEST_SIZE_CLASS
  {
    BinSizeClassPow2(i);
    Pow2Monotone(i + 4, 11);
    Pow2Values();
  }

  lemma PartBuildable(l: Layout, p: HeapParams, i: nat)
    requires GoodPlan(l, p) && i < PART_COUNT && PartPages(p, i) > 0
    ensures ValidConfig(PartConfig(p, i))
  {
    PartPlace(l, p, i);
    PartInBuffer(l, i);
    ProductMonotone(1, PartPages(p, i), PartConfig(p, i).pageSize);
    if i != BIG {
      BinClassFits(i);
    }
  }

  lemma SmallPageFits(l: Layout, p: HeapParams)
    requires GoodPlan(l, p) && p.counts[0] > 0
    ensures p.small < WORD_LIMIT
  {
    PartInBuffer(l, 0);
    ProductMonotone(1, p.counts[0], p.small);
  }

  // A part just created occupies exactly its share of the buffer and holds nothing.
  lemma FreshPartOk(l: Layout, p: HeapParams, i: nat, part: Part)
    requires GoodPlan(l, p) && i < PART_COUNT && FreshPart(l, p, i, part)
    ensures PartOk(l, i, part) && Bytes(part.seg) == Home(l, i) && Held(part.seg, part.queue) == {}
  {
    PartPlace(l, p, i);
    PartInBuffer(l, i);
    var c, start, n := PartConfig(p, i), PartStart(l, i), PartPages(p, i);
    var none := Seg(c, [], 0);
    GrowContract(none, start, n);
    GrownBytes(none, start, n);
    assert [] + FreshSlots(c, start, n) == FreshSlots(c, start, n);
    assert Grow(none, start, n) == part.seg;
    assert Bytes(none) == {};
  }

  lemma PartsConfigured(l: Layout, p: HeapParams, ps: seq<Part>)
    requires GoodPlan(l, p) && |ps| == PART_COUNT && AllFresh(l, p, ps)
    ensures ps[BIG].seg.cfg == Config(p.big, 0, p.coalesce, p.bigThreshold, 0.0) && |ps[BIG].seg.slots| == 1
    ensures forall i :: 0 <= i < BIN_COUNT ==>
      && ps[i].seg.cfg == Config(p.small, BinSizeClass(i), p.coalesce, p.smallThreshold, p.coefficient)
      && |ps[i].seg.slots| == p.counts[i]
  {
    forall i | 0 <= i < PART_COUNT
      ensures ps[i].seg.cfg == PartConfig(p, i) && |ps[i].seg.slots| == PartPages(p, i)
    {
      assert FreshPart(l, p, i, ps[i]);
      FreshSlotsAt(PartConfig(p, i), PartStart(l, i), PartPages(p, i));
    }
  }

  // What a bounded heap answers to its first request.
  lemma FreshAnswer(l: Layout, p: HeapParams, ps: seq<Part>, size: nat)
    requires GoodPlan(l, p) && l.local && |ps| == PART_COUNT && AllFresh(l, p, ps) && Inv(l, ps)
    requires forall i :: 0 <= i < BIN_COUNT ==> p.counts[i] > 0
    ensures BoundedAnswer(l, ps, size) != 0 <==> HeapServes(p.big, size)
  {
    var k := ServingPart(size);
    var s, start := ps[k].seg, PartStart(l, k);
    var asked := if k == BIG then size else BinSizeClass(k);
    assert FreshPart(l, p, k, ps[k]) && PartAt(l, ps, k);
    BoundedAnswerExact(l, ps, size);
    InvUsable(s);
    if asked + HEADER <= s.cfg.pageSize {
      FirstPageAnswers(l, p, k, ps[k], asked);
      if k == BIG {
        assert |s.slots| == 1;
      } else {
        ServesAsked(l, ps, k, size);
      }
      assert PageServes(s, 0, asked) ==> !AllRefuse(s, asked);
      assert !PageServes(s, 0, asked) && |s.slots| == 1 ==> AllRefuse(s, asked);
    } else if k != BIG {
      ServesAsked(l, ps, k, size);
    }
  }

  lemma FirstPageAnswers(l: Layout, p: HeapParams, k: nat, part: Part, size: nat)
    requires GoodPlan(l, p) && k < PART_COUNT && FreshPart(l, p, k, part) && PartPages(p, k) > 0
    requires size > 0 && size + HEADER <= part.seg.cfg.pageSize && AllUsable(part.seg)
    ensures |part.seg.slots| == PartPages(p, k)
    ensures PageServes(part.seg, 0, size) <==> k != BIG || size + 80 <= p.big
  {
    var c, start := PartConfig(p, k), PartStart(l, k);
    PartPlace(l, p, k);
    PartInBuffer(l, k);
    ProductMonotone(1, PartPages(p, k), c.pageSize);
    FreshSlotsAt(c, start, PartPages(p, k));
    NoOffset(start, c.pageSize);
    if k != BIG {
      BinClassFits(k);
    }
    FreshPageServes(c, start, size);
  }

  lemma NoOffset(a: nat, n: nat)
    ensures a + 0 * n == a
  {
  }

  // A heap just created: its pages tile the buffer and nothing is held.
  lemma FreshHeap(l: Layout, p: HeapParams, ps: seq<Part>)
    requires GoodPlan(l, p) && |ps| == PART_COUNT && AllFresh(l, p, ps)
    ensures Inv(l, ps) && HeapHeld(ps) == {}
    ensures HeapBytes(ps) == Range(l.buffer, RequiredBuffer(l.counts, l.small, l.big))
  {
    forall i | 0 <= i < PART_COUNT
      ensures PartOk(l, i, ps[i]) && Bytes(ps[i].seg) == Home(l, i) && Held(ps[i].seg, ps[i].queue) == {}
    {
      FreshPartOk(l, p, i, ps[i]);
    }
    forall i: nat, j: nat ensures PartsApart(ps, i, j) {
      if i < j < PART_COUNT {
        PartsInOrder(l, i, j);
      } else if j < i < PART_COUNT {
        PartsInOrder(l, j, i);
      }
    }
    forall x: nat ensures x in HeapBytes(ps) <==> x in Range(l.buffer, RequiredBuffer(l.counts, l.small, l.big)) {
      HeldSomewhere(ps, x);
      BinsTileBuffer(l, x);
      forall i: nat | i < PART_COUNT ensures ByteOf(ps, i, x) <==> x in Home(l, i) {
      }
      if i :| 0 <= i < PART_COUNT && x in Home(l, i) {
        assert ByteOf(ps, i, x);
      }
    }
  }
}
