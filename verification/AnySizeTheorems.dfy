// What the any-size page promises, over single operations and over whole runs.
module AnySizeTheorems {
  import opened Sequences
  import opened Words
  import opened Tiling
  import opened AnySizeSpec

  // ---- Allocation ----

  ghost predicate HasRoom(p: Page, b: nat, size: nat) {
    b in p.sizes && AllocationSize(size) + NODE_SIZE + Padding(b) <= p.sizes[b]
  }

  // Position i holds the earliest block in list order with room for the request.
  ghost predicate EarliestFit(p: Page, size: nat, i: nat) {
    i < |p.free| && HasRoom(p, p.free[i], size) && forall j :: 0 <= j < i ==> !HasRoom(p, p.free[j], size)
  }

  // What the consumed block leaves behind in the list: its tail, when that can hold a node.
  ghost function Remainder(p: Page, b: nat, size: nat): seq<nat>
    requires HasRoom(p, b, size)
  {
    var total := AllocationSize(size) + NODE_SIZE + Padding(b);
    if p.sizes[b] >= total + NODE_SIZE then [b + total] else []
  }

  lemma FirstFitIsEarliest(p: Page, size: nat)
    requires Listed(p) && NoFalseFit(p, size)
    ensures var i := FirstFit(p, size, 0);
      && (i < |p.free| ==>
            && EarliestFit(p, size, i)
            && RequiredSpace(size, p.free[i]) == AllocationSize(size) + NODE_SIZE + Padding(p.free[i]))
      && (i == |p.free| <==> forall j :: 0 <= j < |p.free| ==> !HasRoom(p, p.free[j], size))
  {
    RequiredSpaceExact(size);
    var i := FirstFit(p, size, 0);
    assert i < |p.free| ==> HasRoom(p, p.free[i], size);
  }

  // What first fit chooses is what the page's allocate takes.
  lemma ChosenBlock(p: Page, size: nat, i: nat, required: nat)
    requires Listed(p) && NoFalseFit(p, size) && i == FirstFit(p, size, 0) < |p.free|
    requires required == AllocationSize(size) + NODE_SIZE + Padding(p.free[i])
    ensures Padding(p.free[i]) + 2 * NODE_SIZE <= required <= p.sizes[p.free[i]]
    ensures Allocate(p, size) == (AllocateAt(p, i, required), Payload(p.free[i]))
  {
    FirstFitIsEarliest(p, size);
  }

  lemma NoneChosen(p: Page, size: nat)
    requires Listed(p) && NoFalseFit(p, size) && FirstFit(p, size, 0) == |p.free|
    ensures Allocate(p, size) == (p, 0)
  {
  }

  // Null exactly when no free block has room; otherwise the earliest such block in list order is
  // consumed, and the rest of the list keeps its order.
  lemma AllocateFirstFit(p: Page, size: nat)
    requires Listed(p) && NoFalseFit(p, size)
    ensures var (q, ptr) := Allocate(p, size);
      && (ptr == 0 <==> forall j :: 0 <= j < |p.free| ==> !HasRoom(p, p.free[j], size))
      && (ptr == 0 ==> q == p)
      && (ptr != 0 ==>
            var i := FirstFit(p, size, 0);
            && EarliestFit(p, size, i)
            && ptr == Payload(p.free[i])
            && q.free == p.free[..i] + Remainder(p, p.free[i], size) + p.free[i + 1..])
  {
    FirstFitIsEarliest(p, size);
    var i := FirstFit(p, size, 0);
    if i < |p.free| {
      ChosenBlock(p, size, i, AllocationSize(size) + NODE_SIZE + Padding(p.free[i]));
      AllocatedList(p, i, size);
    } else {
      NoneChosen(p, size);
    }
  }

  // What allocate is to find: the earliest block with room, or nothing when no block has room.
  ghost predicate RightChoice(p: Page, size: nat, i: nat) {
    if i == |p.free| then forall j :: 0 <= j < |p.free| ==> !HasRoom(p, p.free[j], size)
    else EarliestFit(p, size, i)
  }

  // The search finds that exactly when no wrapped sum makes a block seem to fit.
  lemma FirstFitIsRight(p: Page, size: nat)
    requires Inv(p) && size < WORD_LIMIT
    ensures RightChoice(p, size, FirstFit(p, size, 0)) <==> NoFalseFit(p, size)
  {
    var i := FirstFit(p, size, 0);
    if NoFalseFit(p, size) {
      FirstFitIsEarliest(p, size);
    } else if EarliestFit(p, size, i) {
      HasRoomFits(p, p.free[i], size);
    }
  }

  // A block with room for a request is itself the proof that the sum does not wrap.
  lemma HasRoomFits(p: Page, b: nat, size: nat)
    requires Inv(p) && HasRoom(p, b, size)
    ensures SizeFitsWord(size)
  {
    PayloadAligned(b);
    assert Payload(b) >= 32;
  }

  // A page of 96 free bytes, asked for all but 16 bytes of the address space: the sum wraps to 0, and
  // the only block is chosen.
  lemma WrappedRequestSeemsToFit()
    ensures var p, size := Fresh(4096, 4192), WORD_LIMIT - 16;
      && Inv(p) && RequiredSpace(size, 4096) == 0 && FirstFit(p, size, 0) == 0
      && !HasRoom(p, 4096, size) && !NoFalseFit(p, size)
  {
    var p := Fresh(4096, 4192);
    FreshInv(4096, 4192);
    assert Padding(4096) == 0;
  }

  lemma TakeInserted(s: seq<nat>, i: nat, x: nat)
    requires i < |s|
    ensures var r := s[..i + 1] + [x] + s[i + 1..]; r[..i] + r[i + 1..] == s[..i] + [x] + s[i + 1..]
  {
  }

  lemma AllocatedList(p: Page, i: nat, size: nat)
    requires IsFree(p, i) && HasRoom(p, p.free[i], size)
    ensures AllocateAt(p, i, AllocationSize(size) + NODE_SIZE + Padding(p.free[i])).free
         == p.free[..i] + Remainder(p, p.free[i], size) + p.free[i + 1..]
  {
    TakeInserted(p.free, i, p.free[i] + AllocationSize(size) + NODE_SIZE + Padding(p.free[i]));
  }

  lemma AllocateAtInv(p: Page, i: nat, total: nat)
    requires Inv(p) && i < |p.free|
    requires Padding(p.free[i]) + 2 * NODE_SIZE <= total <= p.sizes[p.free[i]]
    ensures var q := AllocateAt(p, i, total);
      && Inv(q) && q.lo == p.lo && q.hi == p.hi
      && q.live == p.live + {p.free[i]} && p.free[i] !in p.live
      && total <= q.sizes[p.free[i]] <= p.sizes[p.free[i]]
      && forall b :: b in p.live ==> q.sizes[b] == p.sizes[b]
  {
    if p.sizes[p.free[i]] - total >= NODE_SIZE {
      SplitInv(p, i, total);
      assert Apart(p.sizes, p.free[i], p.free[i] + total);
      TakeAccounted(Split(p, i, total), i);
    } else {
      TakeAccounted(p, i);
    }
  }

  // What every other member may rely on: one block becomes live, every live block keeps its extent,
  // and the payload is aligned, inside its block and long enough.
  lemma AllocateKeepsInv(p: Page, size: nat)
    requires Inv(p) && NoFalseFit(p, size)
    ensures var (q, ptr) := Allocate(p, size);
      && Inv(q) && q.lo == p.lo && q.hi == p.hi
      && (ptr == 0 ==> q == p)
      && (ptr != 0 ==>
            && BaseOf(q, ptr) in q.sizes && BaseOf(q, ptr) !in p.live
            && q.live == p.live + {BaseOf(q, ptr)}
            && ptr == Payload(BaseOf(q, ptr))
            && ptr % 16 == 0
            && p.lo < ptr
            && ptr + AllocationSize(size) <= BaseOf(q, ptr) + q.sizes[BaseOf(q, ptr)] <= p.hi
            && forall b :: b in p.live ==> q.sizes[b] == p.sizes[b])
  {
    var i := FirstFit(p, size, 0);
    if i < |p.free| {
      RequiredSpaceExact(size);
      AllocateAtInv(p, i, RequiredSpace(size, p.free[i]));
      PayloadAligned(p.free[i]);
      BaseOfPayload(Allocate(p, size).0, p.free[i]);
    }
  }

  // ---- Pointers and blocks ----

  // The header found below a live pointer belongs to that pointer's block.
  lemma BaseOfPayload(p: Page, b: nat)
    requires Inv(p) && b in p.live
    ensures BaseOf(p, Payload(b)) == b
  {
    PayloadAligned(b);
    forall x: nat | b < x < b + p.sizes[b] ensures x !in p.sizes {
      assert Apart(p.sizes, b, x);
    }
    BlockAtFinds(p.sizes, b, b + Padding(b), MIN_ALIGNMENT - 1);
  }

  lemma {:induction false} BlockAtFinds(sizes: map<nat, nat>, b: nat, x: nat, n: nat)
    requires b in sizes && b <= x <= b + n
    requires forall y: nat :: b < y <= x ==> y !in sizes
    ensures BlockAt(sizes, x, n) == b
    decreases n
  {
    if x != b {
      BlockAtFinds(sizes, b, x - 1, n - 1);
    }
  }

  ghost predicate Disjoint(lo: nat, hi: nat, lo': nat, hi': nat) {
    hi <= lo' || hi' <= lo
  }

  // Two live payloads with their headers never overlap, and different blocks have different payload addresses.
  lemma PayloadsDisjoint(p: Page, b: nat, c: nat)
    requires Inv(p) && b in p.live && c in p.live && b != c
    ensures Disjoint(Payload(b) - NODE_SIZE, b + p.sizes[b], Payload(c) - NODE_SIZE, c + p.sizes[c])
    ensures Payload(b) != Payload(c)
  {
    PayloadAligned(b);
    PayloadAligned(c);
    assert Apart(p.sizes, b, c) && Apart(p.sizes, c, b);
  }

  // ---- Deallocation ----

  lemma MergeIfTouchingInv(p: Page, k: nat)
    requires Inv(p)
    ensures Inv(MergeIfTouching(p, k)) && MergeIfTouching(p, k).live == p.live
    ensures MergeIfTouching(p, k).lo == p.lo && MergeIfTouching(p, k).hi == p.hi
    ensures forall b :: b in p.live ==> MergeIfTouching(p, k).sizes[b] == p.sizes[b]
  {
    if Touching(p, k) {
      MergeInv(p, k);
    }
  }

  lemma CoalesceInv(p: Page, k: nat, knowsPrevious: bool)
    requires Inv(p)
    ensures Inv(Coalesce(p, k, knowsPrevious)) && Coalesce(p, k, knowsPrevious).live == p.live
    ensures Coalesce(p, k, knowsPrevious).lo == p.lo && Coalesce(p, k, knowsPrevious).hi == p.hi
    ensures forall b :: b in p.live ==> Coalesce(p, k, knowsPrevious).sizes[b] == p.sizes[b]
  {
    MergeIfTouchingInv(p, k);
    if knowsPrevious && k > 0 {
      MergeIfTouchingInv(MergeIfTouching(p, k), k - 1);
    }
  }

  // A merge happens exactly where the freed block touches its list successor, or its predecessor if the
  // walk knows it; the merged block has the sizes of its parts, and the list loses exactly what was merged.
  lemma CoalesceExact(p: Page, k: nat, knowsPrevious: bool)
    requires Inv(p) && k < |p.free|
    ensures var next, prev := Touching(p, k), knowsPrevious && k > 0 && Touching(p, k - 1);
      var q, first := Coalesce(p, k, knowsPrevious), if prev then p.free[k - 1] else p.free[k];
      && q.free == p.free[..if prev then k else k + 1] + p.free[if next then k + 2 else k + 1..]
      && first in q.sizes
      && q.sizes[first] == (if prev then p.sizes[p.free[k - 1]] else 0) + p.sizes[p.free[k]]
                           + (if next then p.sizes[p.free[k + 1]] else 0)
      && q.sizes.Keys == p.sizes.Keys - (if prev then {p.free[k]} else {}) - (if next then {p.free[k + 1]} else {})
      && forall b :: b in q.sizes && b != first ==> q.sizes[b] == p.sizes[b]
  {
    MergeExact(p, k);
    if knowsPrevious && k > 0 {
      var q := MergeIfTouching(p, k);
      MergeIfTouchingInv(p, k);
      assert q.free[k - 1] == p.free[k - 1] && q.free[..k] == p.free[..k];
      assert k > 0 ==> Differ(p.free, k - 1, k) && Differ(p.free, k - 1, k + 1);
      assert Touching(q, k - 1) <==> Touching(p, k - 1);
      MergeExact(q, k - 1);
    }
  }

  // One merge, or none.
  lemma MergeExact(p: Page, k: nat)
    requires Inv(p) && k < |p.free|
    ensures var q := MergeIfTouching(p, k);
      && q.free == p.free[..k + 1] + p.free[if Touching(p, k) then k + 2 else k + 1..]
      && p.free[k] in q.sizes
      && q.sizes[p.free[k]] == p.sizes[p.free[k]] + (if Touching(p, k) then p.sizes[p.free[k + 1]] else 0)
      && q.sizes.Keys == p.sizes.Keys - (if Touching(p, k) then {p.free[k + 1]} else {})
      && forall b :: b in q.sizes && b != p.free[k] ==> q.sizes[b] == p.sizes[b]
  {
    assert p.free[k] in p.sizes;
    assert Differ(p.free, k, k + 1);
  }

  // Where a freed block goes in the list: in front of the first element above the pointer, but behind the only one
  // whatever its address.
  ghost predicate PutAt(free: seq<nat>, ptr: nat, k: nat) {
    && k <= |free|
    && if |free| == 1 then k == 1
       else (forall j :: 0 <= j < k ==> free[j] <= ptr) && (k < |free| ==> ptr < free[k])
  }

  // There is exactly one such place.
  lemma PlaceUnique(free: seq<nat>, ptr: nat, k: nat)
    ensures PutAt(free, ptr, k) <==> k == InsertPosition(free, ptr)
  {
  }

  // What a free leaves. Block b goes to place k in the list; with coalescing it is joined with the element behind it
  // if that starts where the block ends, and with the element before it if that ends where the block starts and the
  // list had two elements or more. Nothing else changes.
  ghost predicate FreedTo(p: Page, b: nat, k: nat, coalesce: bool, q: Page)
    requires Listed(p) && b in p.sizes && k <= |p.free|
  {
    var next := coalesce && k < |p.free| && b + p.sizes[b] == p.free[k];
    var prev := coalesce && |p.free| >= 2 && k > 0 && p.free[k - 1] + p.sizes[p.free[k - 1]] == b;
    var first := if prev then p.free[k - 1] else b;
    && q.free == p.free[..if prev then k - 1 else k] + [first] + p.free[if next then k + 1 else k..]
    && q.sizes.Keys == p.sizes.Keys - (if prev then {b} else {}) - (if next then {p.free[k]} else {})
    && first in q.sizes
    && q.sizes[first] == (if prev then p.sizes[first] else 0) + p.sizes[b] + (if next then p.sizes[p.free[k]] else 0)
    && (forall c :: c in q.sizes && c != first ==> q.sizes[c] == p.sizes[c])
    && q.lo == p.lo && q.hi == p.hi && q.live == p.live - {b} && q.used == p.used - p.sizes[b]
  }

  lemma DeallocateExact(p: Page, ptr: nat, coalesce: bool) returns (b: nat, k: nat)
    requires Inv(p) && ptr in LivePtrs(p)
    ensures b in p.live && b in p.sizes && Payload(b) == ptr && PutAt(p.free, ptr, k)
    ensures FreedTo(p, b, k, coalesce, Deallocate(p, ptr, coalesce))
  {
    LivePtrBase(p, ptr);
    b, k := BaseOf(p, ptr), InsertPosition(p.free, ptr);
    PlaceUnique(p.free, ptr, k);
    DeallocateKeepsInv(p, ptr, coalesce);
    GiveAccounted(p, b, k);
    GivenList(p.free, k, b);
    if coalesce {
      CoalesceExact(Give(p, b, k), k, KnowsPrevious(p.free, ptr));
    }
  }

  // The neighbours of an element put in at position k.
  lemma GivenList(free: seq<nat>, k: nat, b: nat)
    requires k <= |free|
    ensures var g := free[..k] + [b] + free[k..];
      && g[k] == b && (k > 0 ==> g[k - 1] == free[k - 1]) && (k < |free| ==> g[k + 1] == free[k])
      && g[..k + 1] == free[..k] + [b] && g[k + 1..] == free[k..]
      && (k > 0 ==> g[..k] == free[..k - 1] + [free[k - 1]])
      && (k < |free| ==> g[k + 2..] == free[k + 1..])
  {
  }

  lemma DeallocateKeepsInv(p: Page, ptr: nat, coalesce: bool)
    requires Inv(p) && BaseOf(p, ptr) in p.live && ptr == Payload(BaseOf(p, ptr))
    ensures var q, b := Deallocate(p, ptr, coalesce), BaseOf(p, ptr);
      && Inv(q) && q.lo == p.lo && q.hi == p.hi
      && q.live == p.live - {b}
      && q.used == p.used - p.sizes[b]
      && forall c :: c in q.live ==> q.sizes[c] == p.sizes[c]
  {
    var b, k := BaseOf(p, ptr), InsertPosition(p.free, ptr);
    PayloadAligned(b);
    assert Owns(p, ptr);
    GiveAccounted(p, b, k);
    CoalesceInv(Give(p, b, k), k, KnowsPrevious(p.free, ptr));
  }

  // ---- Live pointers ----

  lemma LivePtrBase(p: Page, ptr: nat)
    requires Inv(p) && ptr in LivePtrs(p)
    ensures BaseOf(p, ptr) in p.live && ptr == Payload(BaseOf(p, ptr)) && Owns(p, ptr)
  {
    var b :| b in p.live && Payload(b) == ptr;
    BaseOfPayload(p, b);
    PayloadAligned(b);
  }

  lemma AllocatePtrs(p: Page, size: nat)
    requires Inv(p) && NoFalseFit(p, size)
    ensures var (q, ptr) := Allocate(p, size);
      ptr != 0 ==> LivePtrs(q) == LivePtrs(p) + {ptr} && ptr !in LivePtrs(p)
  {
    AllocateKeepsInv(p, size);
    var (q, ptr) := Allocate(p, size);
    if ptr != 0 && ptr in LivePtrs(p) {
      var c :| c in p.live && Payload(c) == ptr;
      BaseOfPayload(q, c);
    }
  }

  lemma DeallocatePtrs(p: Page, ptr: nat, coalesce: bool)
    requires Inv(p) && ptr in LivePtrs(p)
    ensures LivePtrs(Deallocate(p, ptr, coalesce)) == LivePtrs(p) - {ptr}
  {
    var b, q := BaseOf(p, ptr), Deallocate(p, ptr, coalesce);
    LivePtrBase(p, ptr);
    DeallocateKeepsInv(p, ptr, coalesce);
    forall x | x in LivePtrs(p) - {ptr} ensures x in LivePtrs(q) {
      var d :| d in p.live && Payload(d) == x;
      assert d in q.live;
    }
    forall x | x in LivePtrs(q) ensures x in LivePtrs(p) - {ptr} {
      var d :| d in q.live && Payload(d) == x;
      PayloadsDisjoint(p, b, d);
    }
  }

  // ---- Room ----

  // ptr is live, and n bytes from it on lie in its own block.
  ghost predicate Reserved(p: Page, ptr: nat, n: nat) {
    var b := BaseOf(p, ptr);
    b in p.live && b in p.sizes && ptr == Payload(b) && ptr + n <= b + p.sizes[b]
  }

  lemma ReservedInside(p: Page, ptr: nat, n: nat)
    requires Inv(p) && Reserved(p, ptr, n)
    ensures ptr in LivePtrs(p) && ptr % 16 == 0 && p.lo + NODE_SIZE <= ptr && ptr + n <= p.hi
  {
    PayloadAligned(BaseOf(p, ptr));
  }

  // The bytes of two live pointers are apart, and either one's bytes from the other's header too.
  lemma ReservedApart(p: Page, ptr: nat, n: nat, ptr': nat, n': nat)
    requires Inv(p) && Reserved(p, ptr, n) && Reserved(p, ptr', n') && ptr != ptr'
    ensures ptr + n + NODE_SIZE <= ptr' || ptr' + n' + NODE_SIZE <= ptr
  {
    var b, c := BaseOf(p, ptr), BaseOf(p, ptr');
    assert Apart(p.sizes, b, c) && Apart(p.sizes, c, b);
  }

  lemma LiveHasBlock(p: Page, ptr: nat)
    requires Inv(p) && ptr in LivePtrs(p)
    ensures Reserved(p, ptr, 0)
  {
    LivePtrBase(p, ptr);
    PayloadAligned(BaseOf(p, ptr));
    assert Placed(p, BaseOf(p, ptr));
  }

  // A served request reserves what was asked for, and nobody else loses a byte.
  lemma AllocateReserves(p: Page, size: nat)
    requires Inv(p) && NoFalseFit(p, size)
    ensures var (q, ptr) := Allocate(p, size);
      && (ptr != 0 ==> Reserved(q, ptr, AllocationSize(size)))
      && forall x: nat, n: nat :: Reserved(p, x, n) ==> Reserved(q, x, n)
  {
    var (q, ptr) := Allocate(p, size);
    AllocateKeepsInv(p, size);
    forall x: nat, n: nat | Reserved(p, x, n) ensures Reserved(q, x, n) {
      BaseOfPayload(q, BaseOf(p, x));
    }
  }

  lemma DeallocateReserves(p: Page, ptr: nat, coalesce: bool)
    requires Inv(p) && ptr in LivePtrs(p)
    ensures forall x: nat, n: nat :: x != ptr && Reserved(p, x, n) ==> Reserved(Deallocate(p, ptr, coalesce), x, n)
  {
    var q := Deallocate(p, ptr, coalesce);
    LivePtrBase(p, ptr);
    DeallocateKeepsInv(p, ptr, coalesce);
    forall x: nat, n: nat | x != ptr && Reserved(p, x, n) ensures Reserved(q, x, n) {
      BaseOfPayload(q, BaseOf(p, x));
    }
  }

  // What get_usable_size answers.
  function UsableSize(p: Page, ptr: nat): int
  {
    if BaseOf(p, ptr) in p.sizes then p.sizes[BaseOf(p, ptr)] - NODE_SIZE else 0
  }

  // It is the room behind the pointer plus the padding, so it can be relied on exactly when there is none.
  lemma UsableSizeExact(p: Page, ptr: nat)
    requires Inv(p) && ptr in LivePtrs(p)
    ensures UsableSize(p, ptr) >= 0
    ensures forall n: nat :: Reserved(p, ptr, n) <==> n + Padding(BaseOf(p, ptr)) <= UsableSize(p, ptr)
    ensures Reserved(p, ptr, UsableSize(p, ptr)) <==> BaseOf(p, ptr) % 16 == 0
  {
    LiveHasBlock(p, ptr);
    PayloadAligned(BaseOf(p, ptr));
    var k := BaseOf(p, ptr) % 16;
    assert (BaseOf(p, ptr) + 16) % 16 == k;
  }

  lemma FirstRequest()
    ensures Allocate(Fresh(4096, 4192), 17) == (Page(4096, 4192, map[4096 := 33, 4129 := 63], [4129], {4096}, 33), 4112)
  {
    var o := Fresh(4096, 4192);
    var cut := Page(4096, 4192, map[4096 := 33, 4129 := 63], [4096, 4129], {}, 0);
    assert FirstFit(o, 17, 0) == 0 && RequiredSpace(17, 4096) == 33;
    assert o.free[..1] + [4129] + o.free[1..] == cut.free;
    assert SplitSizes(o.sizes, 4096, 33) == cut.sizes;
    assert Split(o, 0, 33) == cut;
    assert cut.free[..0] + cut.free[1..] == [4129] && cut.live + {4096} == {4096};
  }

  // A page of 96 free bytes after requests for 17 and 32 bytes: the second block starts at 4129, so 15
  // bytes of padding are answered as usable although they lie below the pointer.
  lemma UsableSizeCountsPadding()
    ensures var p := Allocate(Fresh(4096, 4192), 17).0;
      Listed(p) && NoFalseFit(p, 32) && var (q, ptr) := Allocate(p, 32);
      Inv(q) && UsableSize(q, ptr) == 47 && Reserved(q, ptr, 32) && !Reserved(q, ptr, 33)
  {
    FreshInv(4096, 4192);
    FirstRequest();
    AllocateKeepsInv(Fresh(4096, 4192), 17);
    var p := Page(4096, 4192, map[4096 := 33, 4129 := 63], [4129], {4096}, 33);
    assert FirstFit(p, 32, 0) == 0 && RequiredSpace(32, 4129) == 63;
    AllocateKeepsInv(p, 32);
    BaseOfPayload(Allocate(p, 32).0, 4129);
  }

  // ---- Bytes ----

  // The bytes of free blocks are exactly the page's bytes outside live blocks.
  lemma FreeBytesComplement(p: Page, x: nat)
    requires Inv(p)
    ensures InFree(p, x) <==> p.lo <= x < p.hi && forall b :: b in p.live ==> !InBlock(p.sizes, b, x)
  {
    if InFree(p, x) {
      var i :| 0 <= i < |p.free| && InBlock(p.sizes, p.free[i], x);
      var c := TilesCover(p.sizes, p.lo, p.hi, x);
    } else if p.lo <= x < p.hi {
      var c := TilesCover(p.sizes, p.lo, p.hi, x);
      assert Placed(p, c);
    }
  }

  // Freeing makes free exactly the bytes of the pointer's block.
  lemma DeallocateFreesBlock(p: Page, ptr: nat, coalesce: bool, x: nat)
    requires Inv(p) && ptr in LivePtrs(p)
    ensures InFree(Deallocate(p, ptr, coalesce), x) <==> InFree(p, x) || InBlock(p.sizes, BaseOf(p, ptr), x)
  {
    var q := Deallocate(p, ptr, coalesce);
    LivePtrBase(p, ptr);
    DeallocateKeepsInv(p, ptr, coalesce);
    FreeBytesComplement(p, x);
    FreeBytesComplement(q, x);
    BlockLeavesLive(p, q, BaseOf(p, ptr), x);
  }

  // The byte is in no live block afterwards if and only if it was in none before, or in the one that left.
  lemma BlockLeavesLive(p: Page, q: Page, b: nat, x: nat)
    requires Inv(p) && Inv(q) && b in p.live && q.live == p.live - {b}
    requires forall c :: c in q.live ==> q.sizes[c] == p.sizes[c]
    ensures (forall c :: c in q.live ==> !InBlock(q.sizes, c, x))
       <==> (forall c :: c in p.live ==> !InBlock(p.sizes, c, x)) || InBlock(p.sizes, b, x)
    ensures InBlock(p.sizes, b, x) ==> p.lo <= x < p.hi
  {
    forall c | c in q.live ensures InBlock(q.sizes, c, x) <==> InBlock(p.sizes, c, x) {
    }
    if InBlock(p.sizes, b, x) {
      forall c | c in q.live ensures !InBlock(p.sizes, c, x) {
        assert Apart(p.sizes, b, c) && Apart(p.sizes, c, b);
      }
    }
  }

  // Handing out takes exactly the bytes of the new block from the free ones.
  lemma AllocateTakesBlock(p: Page, size: nat, x: nat)
    requires Inv(p) && NoFalseFit(p, size) && Allocate(p, size).1 != 0
    ensures var (q, ptr) := Allocate(p, size);
      InFree(p, x) <==> InFree(q, x) || InBlock(q.sizes, BaseOf(q, ptr), x)
  {
    var (q, ptr) := Allocate(p, size);
    AllocateKeepsInv(p, size);
    FreeBytesComplement(p, x);
    FreeBytesComplement(q, x);
    forall c | c in p.live ensures InBlock(q.sizes, c, x) <==> InBlock(p.sizes, c, x) {
    }
    if InBlock(q.sizes, BaseOf(q, ptr), x) {
      forall c | c in p.live ensures !InBlock(q.sizes, c, x) {
        assert Apart(q.sizes, BaseOf(q, ptr), c) && Apart(q.sizes, c, BaseOf(q, ptr));
      }
    }
  }

  // Coalescing joins only blocks that touch, and it neither frees nor takes a byte.
  lemma CoalesceKeepsFreeBytes(p: Page, k: nat, knowsPrevious: bool, x: nat)
    requires Inv(p)
    ensures InFree(Coalesce(p, k, knowsPrevious), x) <==> InFree(p, x)
  {
    CoalesceInv(p, k, knowsPrevious);
    FreeBytesComplement(p, x);
    FreeBytesComplement(Coalesce(p, k, knowsPrevious), x);
  }

  // ---- Conservation ----

  ghost function SumFree(free: seq<nat>, sizes: map<nat, nat>): nat
    requires forall i :: 0 <= i < |free| ==> free[i] in sizes
  {
    if free == [] then 0 else sizes[free[0]] + SumFree(free[1..], sizes)
  }

  lemma {:induction false} SumFreeTotal(free: seq<nat>, sizes: map<nat, nat>)
    requires forall i :: 0 <= i < |free| ==> free[i] in sizes
    requires NoDuplicates(free)
    ensures Elements(free) <= sizes.Keys
    ensures SumFree(free, sizes) == Total(Elements(free), sizes)
  {
    if free != [] {
      TailMembers(free);
      SumFreeTotal(free[1..], sizes);
      TotalRemove(Elements(free), sizes, free[0]);
      assert Elements(free) - {free[0]} == Elements(free[1..]);
    }
  }

  // What the page's own sanity check computes: walking the free list and adding the used size
  // gives the page size, and the used size is the sum of the live blocks.
  lemma Conservation(p: Page)
    requires Inv(p) && Counted(p)
    ensures SumFree(p.free, p.sizes) + p.used == p.hi - p.lo
    ensures p.used == Total(p.live, p.sizes)
  {
    SumFreeTotal(p.free, p.sizes);
    TilesTotal(p.sizes, p.lo, p.hi);
    forall b | b in p.sizes ensures b in Elements(p.free) + p.live {
      assert Placed(p, b);
    }
    assert Elements(p.free) + p.live == p.sizes.Keys;
    TotalUnion(Elements(p.free), p.live, p.sizes);
  }

  // An empty page is one whose used size is zero.
  lemma UsedZero(p: Page)
    requires Inv(p) && Counted(p)
    ensures p.used == 0 <==> p.live == {}
  {
    if b :| b in p.live {
      TotalRemove(p.live, p.sizes, b);
    }
  }

  lemma AllocateCounts(p: Page, size: nat)
    requires Inv(p) && Counted(p) && NoFalseFit(p, size)
    ensures Counted(Allocate(p, size).0)
  {
    var i, q := FirstFit(p, size, 0), Allocate(p, size).0;
    if i < |p.free| {
      var b := p.free[i];
      FirstFitIsEarliest(p, size);
      AllocateAtInv(p, i, RequiredSpace(size, b));
      TotalRemove(q.live, q.sizes, b);
      assert q.live - {b} == p.live;
      TotalSame(p.live, p.sizes, q.sizes);
    }
  }

  lemma DeallocateCounts(p: Page, ptr: nat, coalesce: bool)
    requires Inv(p) && Counted(p)
    requires BaseOf(p, ptr) in p.live && ptr == Payload(BaseOf(p, ptr))
    ensures Counted(Deallocate(p, ptr, coalesce))
  {
    var q := Deallocate(p, ptr, coalesce);
    DeallocateKeepsInv(p, ptr, coalesce);
    TotalRemove(p.live, p.sizes, BaseOf(p, ptr));
    TotalSame(q.live, p.sizes, q.sizes);
  }

  // ---- Whole runs ----

  datatype Op = Alloc(size: nat) | Free(ptr: nat)

  function Apply(p: Page, op: Op, coalesce: bool): Page
    requires Listed(p) && (op.Alloc? ==> NoFalseFit(p, op.size))
  {
    match op
    case Alloc(size) => Allocate(p, size).0
    case Free(ptr) => Deallocate(p, ptr, coalesce)
  }

  // A client's contract: sizes the page can add up, and only live pointers are freed.
  ghost predicate Legal(p: Page, op: Op)
    requires Listed(p)
  {
    match op
    case Alloc(size) => NoFalseFit(p, size)
    case Free(ptr) => BaseOf(p, ptr) in p.live && ptr == Payload(BaseOf(p, ptr))
  }

  ghost predicate LegalRun(pages: seq<Page>, ops: seq<Op>, coalesce: bool) {
    && |pages| == |ops| + 1
    && forall i :: 0 <= i < |ops| ==>
         && Listed(pages[i])
         && Legal(pages[i], ops[i])
         && pages[i + 1] == Apply(pages[i], ops[i], coalesce)
  }

  // A fresh page: one free block.
  function Fresh(lo: nat, hi: nat): Page
    requires lo <= hi
  {
    Page(lo, hi, map[lo := hi - lo], [lo], {}, 0)
  }

  lemma FreshInv(lo: nat, hi: nat)
    requires 0 < lo && lo + NODE_SIZE < hi <= WORD_LIMIT
    ensures Inv(Fresh(lo, hi)) && Counted(Fresh(lo, hi)) && Fresh(lo, hi).live == {}
  {
  }

  // After any legal run, under either policy: free and live blocks tile the page exactly, every byte
  // is in exactly one block, and the sizes add up.
  lemma {:induction false} RunKeepsInv(pages: seq<Page>, ops: seq<Op>, coalesce: bool, n: nat)
    requires |pages| > 0 && Inv(pages[0]) && Counted(pages[0]) && LegalRun(pages, ops, coalesce) && n < |pages|
    ensures Inv(pages[n]) && Counted(pages[n]) && pages[n].lo == pages[0].lo && pages[n].hi == pages[0].hi
    ensures SumFree(pages[n].free, pages[n].sizes) + pages[n].used == pages[0].hi - pages[0].lo
    decreases n
  {
    if n > 0 {
      RunKeepsInv(pages, ops, coalesce, n - 1);
      match ops[n - 1] {
        case Alloc(size) =>
          AllocateKeepsInv(pages[n - 1], size);
          AllocateCounts(pages[n - 1], size);
        case Free(ptr) =>
          DeallocateKeepsInv(pages[n - 1], ptr, coalesce);
          DeallocateCounts(pages[n - 1], ptr, coalesce);
      }
    }
    Conservation(pages[n]);
  }

  // Adjacent free blocks can stay apart: with one free block the freed one is appended behind it
  // whatever its address, and the block before it is never considered for merging.
  lemma AdjacentFreeBlocksMayStay()
    ensures var p := Page(4096, 4192, map[4096 := 32, 4128 := 32, 4160 := 32], [4096], {4128, 4160}, 64);
      && Inv(p) && Payload(4128) == 4144
      && var q := Deallocate(p, 4144, true);
         q.free == [4096, 4128] && q.free[0] + q.sizes[q.free[0]] == q.free[1]
  {
    var p := Page(4096, 4192, map[4096 := 32, 4128 := 32, 4160 := 32], [4096], {4128, 4160}, 64);
    assert 4128 in p.sizes;
    assert BaseOf(p, 4144) == 4128;
    assert Give(p, 4128, 1).free == [4096, 4128];
  }
}
