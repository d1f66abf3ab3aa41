// One name for the two kinds of page a segment can be built from, and what a segment relies on.
module LogicalPages {
  import opened Arith
  import opened Words
  import F = FixedPageSpec
  import A = AnySizeSpec
  import T = AnySizeTheorems
  import opened Tiling

  datatype PageState = FixedPage(f: F.Fixed) | AnySizePage(a: A.Page, coalesce: bool)

  ghost predicate Inv(s: PageState) {
    match s
    case FixedPage(f) => F.Inv(f)
    case AnySizePage(a, _) => A.Inv(a) && A.Counted(a)
  }

  function Lo(s: PageState): nat {
    match s
    case FixedPage(f) => f.lo
    case AnySizePage(a, _) => a.lo
  }

  function Hi(s: PageState): nat {
    match s
    case FixedPage(f) => f.hi
    case AnySizePage(a, _) => a.hi
  }

  function SizeClass(s: PageState): nat {
    match s
    case FixedPage(f) => f.chunk
    case AnySizePage(_, _) => 0
  }

  function Used(s: PageState): int {
    match s
    case FixedPage(f) => f.used
    case AnySizePage(a, _) => a.used
  }

  // The pointers handed out and not yet freed.
  function LivePtrs(s: PageState): set<nat> {
    match s
    case FixedPage(f) => f.live
    case AnySizePage(a, _) => A.LivePtrs(a)
  }

  // The free list names blocks of the page; all that allocation needs to be defined.
  predicate Usable(s: PageState) {
    s.AnySizePage? ==> A.Listed(s.a)
  }

  predicate SizeOk(size: nat) {
    A.SizeFitsWord(size)
  }

  // The page afterwards and the pointer, 0 for a refusal.
  function Allocate(s: PageState, size: nat): (PageState, nat)
    requires Usable(s) && SizeOk(size)
  {
    match s
    case FixedPage(f) => var (g, ptr) := F.Allocate(f); (FixedPage(g), ptr)
    case AnySizePage(a, coalesce) => var (b, ptr) := A.Allocate(a, size); (AnySizePage(b, coalesce), ptr)
  }

  function Deallocate(s: PageState, ptr: nat): PageState {
    match s
    case FixedPage(f) => FixedPage(F.Deallocate(f, ptr))
    case AnySizePage(a, coalesce) => AnySizePage(A.Deallocate(a, ptr, coalesce), coalesce)
  }

  // A page built over the memory [lo, hi); size class 0 means any size.
  function Fresh(lo: nat, hi: nat, sizeClass: nat, coalesce: bool): PageState
    requires lo <= hi
  {
    if sizeClass == 0 then AnySizePage(T.Fresh(lo, hi), coalesce) else FixedPage(F.Fresh(lo, hi, sizeClass))
  }

  predicate Creatable(lo: nat, hi: nat, sizeClass: nat)
    requires lo <= hi
  {
    if sizeClass == 0 then NODE_SIZE < hi - lo else F.MIN_CHUNK <= sizeClass <= hi - lo
  }

  ghost predicate SamePlace(s: PageState, t: PageState) {
    && Lo(s) == Lo(t) && Hi(s) == Hi(t) && SizeClass(s) == SizeClass(t) && s.FixedPage? == t.FixedPage?
    && (s.AnySizePage? ==> s.coalesce == t.coalesce)
  }

  // A served request adds one live pointer, which lies in the page and was not live before.
  lemma AllocateContract(s: PageState, size: nat)
    requires Inv(s) && SizeOk(size)
    ensures var (t, ptr) := Allocate(s, size);
      && Inv(t) && SamePlace(s, t)
      && (ptr == 0 ==> t == s)
      && (ptr != 0 ==>
            && LivePtrs(t) == LivePtrs(s) + {ptr} && ptr !in LivePtrs(s)
            && Lo(s) <= ptr < Hi(s))
  {
    match s
    case FixedPage(f) => F.AllocateKeepsInv(f);
    case AnySizePage(a, coalesce) =>
      T.AllocateKeepsInv(a, size);
      T.AllocateCounts(a, size);
      T.AllocatePtrs(a, size);
  }

  // Freeing a live pointer removes exactly that pointer.
  lemma DeallocateContract(s: PageState, ptr: nat)
    requires Inv(s) && ptr in LivePtrs(s)
    ensures var t := Deallocate(s, ptr);
      Inv(t) && SamePlace(s, t) && LivePtrs(t) == LivePtrs(s) - {ptr}
    ensures Lo(s) <= ptr < Hi(s)
  {
    match s
    case FixedPage(f) =>
      F.DeallocateKeepsInv(f, ptr);
      F.ChunkInside(f, ptr);
    case AnySizePage(a, coalesce) =>
      T.LivePtrBase(a, ptr);
      T.DeallocateKeepsInv(a, ptr, coalesce);
      T.DeallocateCounts(a, ptr, coalesce);
      T.DeallocatePtrs(a, ptr, coalesce);
  }

  // An any-size page coalesces as it was built to.
  lemma DeallocateExact(s: PageState, ptr: nat) returns (b: nat, k: nat)
    requires Inv(s) && s.AnySizePage? && ptr in LivePtrs(s)
    ensures b in s.a.live && b in s.a.sizes && A.Payload(b) == ptr && T.PutAt(s.a.free, ptr, k)
    ensures Deallocate(s, ptr).AnySizePage? && T.FreedTo(s.a, b, k, s.coalesce, Deallocate(s, ptr).a)
  {
    b, k := T.DeallocateExact(s.a, ptr, s.coalesce);
  }

  // A live pointer lies in its page.
  lemma LiveInside(s: PageState, ptr: nat)
    requires Inv(s) && ptr in LivePtrs(s)
    ensures Lo(s) <= ptr < Hi(s)
  {
    DeallocateContract(s, ptr);
  }

  // The used size tells whether anything is live.
  lemma UsedZero(s: PageState)
    requires Inv(s)
    ensures Used(s) == 0 <==> LivePtrs(s) == {}
  {
    match s
    case FixedPage(f) => F.UsedZero(f);
    case AnySizePage(a, _) =>
      T.UsedZero(a);
      if b :| b in a.live {
        assert A.Payload(b) in A.LivePtrs(a);
      }
  }

  lemma FreshContract(lo: nat, hi: nat, sizeClass: nat, coalesce: bool)
    requires 0 < lo <= hi <= WORD_LIMIT && Creatable(lo, hi, sizeClass)
    ensures var s := Fresh(lo, hi, sizeClass, coalesce);
      Inv(s) && Lo(s) == lo && Hi(s) == hi && SizeClass(s) == sizeClass && LivePtrs(s) == {}
        && (s.FixedPage? <==> sizeClass != 0)
  {
    if sizeClass == 0 {
      T.FreshInv(lo, hi);
    } else {
      F.FreshInv(lo, hi, sizeClass);
    }
  }

  // A fresh fixed-size page always serves; a fresh any-size page whose memory is 16-byte aligned
  // serves exactly the sizes that leave room for one header.
  lemma FreshServes(lo: nat, hi: nat, sizeClass: nat, coalesce: bool, size: nat)
    requires 0 < lo <= hi <= WORD_LIMIT && Creatable(lo, hi, sizeClass) && lo % 16 == 0 && SizeOk(size)
    ensures Inv(Fresh(lo, hi, sizeClass, coalesce))
    ensures Allocate(Fresh(lo, hi, sizeClass, coalesce), size).1 != 0
       <==> sizeClass != 0 || A.AllocationSize(size) + NODE_SIZE <= hi - lo
  {
    FreshContract(lo, hi, sizeClass, coalesce);
    if sizeClass == 0 {
      var a := T.Fresh(lo, hi);
      T.AllocateFirstFit(a, size);
      assert T.HasRoom(a, a.free[0], size) <==> A.AllocationSize(size) + NODE_SIZE <= hi - lo;
    } else {
      var f := F.Fresh(lo, hi, sizeClass);
      F.GrownElements(lo, sizeClass, f.count);
      F.AllocateKeepsInv(f);
    }
  }

  // ---- Room ----

  // Every chunk starts at a multiple of 16; for any-size pages the padding takes care of that.
  predicate ChunksAligned(s: PageState) {
    s.FixedPage? ==> s.f.lo % 16 == 0 && s.f.chunk % 16 == 0
  }

  // The pointer is live, and n bytes from it on are its own.
  ghost predicate Reserved(s: PageState, ptr: nat, n: nat) {
    match s
    case FixedPage(f) => ptr in f.live && n <= f.chunk
    case AnySizePage(a, _) => T.Reserved(a, ptr, n)
  }

  // What a request gets: the whole chunk, or at least its size.
  function Room(s: PageState, size: nat): nat {
    match s
    case FixedPage(f) => f.chunk
    case AnySizePage(_, _) => A.AllocationSize(size)
  }

  lemma ChunkAligned(f: F.Fixed, a: nat)
    requires F.IsChunk(f, a) && f.lo % 16 == 0 && f.chunk % 16 == 0
    ensures a % 16 == 0
  {
    var i: nat :| i < f.count && a == F.Chunk(f.lo, f.chunk, i);
    DividesProduct(i, f.chunk, 16);
    DividesSum(f.lo, i * f.chunk, 16);
  }

  lemma ReservedInside(s: PageState, ptr: nat, n: nat)
    requires Inv(s) && Reserved(s, ptr, n)
    ensures ptr in LivePtrs(s) && Lo(s) <= ptr && ptr + n <= Hi(s) && (ChunksAligned(s) ==> ptr % 16 == 0)
  {
    match s
    case FixedPage(f) =>
      F.ChunkInside(f, ptr);
      if ChunksAligned(s) {
        ChunkAligned(f, ptr);
      }
    case AnySizePage(a, _) => T.ReservedInside(a, ptr, n);
  }

  // The bytes of two live pointers never overlap, nor does one's header overlap the other's bytes.
  lemma ReservedApart(s: PageState, ptr: nat, n: nat, ptr': nat, n': nat)
    requires Inv(s) && Reserved(s, ptr, n) && Reserved(s, ptr', n') && ptr != ptr'
    ensures var header := if s.FixedPage? then 0 else NODE_SIZE;
      ptr + n + header <= ptr' || ptr' + n' + header <= ptr
  {
    match s
    case FixedPage(f) => F.ChunksDisjoint(f, ptr, ptr');
    case AnySizePage(a, _) => T.ReservedApart(a, ptr, n, ptr', n');
  }

  lemma AllocateReserves(s: PageState, size: nat)
    requires Inv(s) && SizeOk(size)
    ensures var (t, ptr) := Allocate(s, size);
      && (ptr != 0 ==> Reserved(t, ptr, Room(s, size)))
      && forall x: nat, n: nat :: Reserved(s, x, n) ==> Reserved(t, x, n)
  {
    match s
    case FixedPage(f) => F.AllocateKeepsInv(f);
    case AnySizePage(a, _) =>
      T.AllocateReserves(a, size);
      var t := Allocate(s, size).0;
      forall x: nat, n: nat | Reserved(s, x, n) ensures Reserved(t, x, n) {
        assert T.Reserved(a, x, n);
      }
  }

  // An any-size page never serves a request that leaves no room for a header in it.
  lemma ServedFits(s: PageState, size: nat)
    requires Inv(s) && SizeOk(size) && s.AnySizePage?
    ensures Allocate(s, size).1 != 0 ==> size + NODE_SIZE <= Hi(s) - Lo(s)
  {
    var (t, ptr) := Allocate(s, size);
    AllocateContract(s, size);
    T.AllocateReserves(s.a, size);
    if ptr != 0 {
      T.ReservedInside(t.a, ptr, A.AllocationSize(size));
    }
  }

  lemma DeallocateReserves(s: PageState, ptr: nat)
    requires Inv(s) && ptr in LivePtrs(s)
    ensures forall x: nat, n: nat :: x != ptr && Reserved(s, x, n) ==> Reserved(Deallocate(s, ptr), x, n)
  {
    match s
    case FixedPage(f) => F.DeallocateKeepsInv(f, ptr);
    case AnySizePage(a, coalesce) =>
      T.DeallocateReserves(a, ptr, coalesce);
      forall x: nat, n: nat | x != ptr && Reserved(s, x, n) ensures Reserved(Deallocate(s, ptr), x, n) {
        assert T.Reserved(a, x, n);
      }
  }

  lemma LiveIsReserved(s: PageState, ptr: nat)
    requires Inv(s) && ptr in LivePtrs(s)
    ensures Reserved(s, ptr, if s.FixedPage? then s.f.chunk else 0)
  {
    if s.AnySizePage? {
      T.LiveHasBlock(s.a, ptr);
    }
  }

  // get_usable_size: the size class, or what the block's header says without the header.
  function UsableSize(s: PageState, ptr: nat): int {
    match s
    case FixedPage(f) => f.chunk
    case AnySizePage(a, _) => T.UsableSize(a, ptr)
  }
}
