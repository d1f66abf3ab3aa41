// The any-size page as a value: which blocks tile the page, and the free list in list order.
// A block's payload follows its padding and its header, and the padding is a function of the
// block's address, so the live pointers are determined by the blocks that are not free.
module AnySizeSpec {
  import opened Sequences
  import opened Words
  import opened Tiling

  const MIN_ALIGNMENT: nat := 16

  // Bytes to skip at `base` so that a 16-byte header ends on a 16-byte boundary.
  function Padding(base: nat): nat {
    var remainder := (base + 16) % 16;
    if remainder != 0 then 16 - remainder else 0
  }

  function Payload(base: nat): nat {
    base + Padding(base) + NODE_SIZE
  }

  // The payload is aligned, its header lies after the block's start, and no shorter padding would do.
  lemma PayloadAligned(base: nat)
    ensures Payload(base) % 16 == 0 && Padding(base) < MIN_ALIGNMENT
    ensures forall q: nat :: q % 16 == 0 && base + NODE_SIZE <= q ==> Payload(base) <= q
  {
  }

  // The collections are type parameters so that the verifier does not rank a page above their elements.
  datatype PageOf<Sizes, List, Blocks> = Page(
    lo: nat,          // first byte of the page's memory
    hi: nat,          // one past its last byte
    sizes: Sizes,     // every block: first byte -> size
    free: List,       // the free list, head first
    live: Blocks,     // the blocks handed out
    used: int)        // m_used_size

  type Page = PageOf<map<nat, nat>, seq<nat>, set<nat>>

  function AllocationSize(size: nat): nat {
    if size < NODE_SIZE then NODE_SIZE else size
  }

  // A 64-bit sum of two addends below 2^64.
  function Wrap(sum: nat): nat {
    if sum < WORD_LIMIT then sum else sum - WORD_LIMIT
  }

  // The space a request needs in a block at `base`, computed in 64-bit arithmetic.
  function RequiredSpace(size: nat, base: nat): nat {
    Wrap(AllocationSize(size) + NODE_SIZE + Padding(base))
  }

  predicate SizeFitsWord(size: nat) {
    size + NODE_SIZE + MIN_ALIGNMENT <= WORD_LIMIT
  }

  // Exactly the sizes for which the 64-bit sum never wraps, whatever the block's address.
  lemma RequiredSpaceExact(size: nat)
    requires size < WORD_LIMIT
    ensures (forall base: nat :: RequiredSpace(size, base) == AllocationSize(size) + NODE_SIZE + Padding(base))
       <==> SizeFitsWord(size)
  {
    assert Padding(1) == 15;
    if !SizeFitsWord(size) {
      assert RequiredSpace(size, 1) < AllocationSize(size);
    }
  }

  ghost function Elements(s: seq<nat>): set<nat> {
    set b | b in s
  }

  function LivePtrs(p: Page): set<nat> {
    set b | b in p.live :: Payload(b)
  }

  predicate Listed(p: Page) {
    forall i :: 0 <= i < |p.free| ==> p.free[i] in p.sizes
  }

  // The free list and the live blocks against the blocks, whatever range those tile.
  ghost predicate Accounted(p: Page) {
    && NoDuplicates(p.free)
    && Listed(p)
    && (forall i :: 0 <= i < |p.free| ==> p.free[i] !in p.live)
    && (forall b :: b in p.live ==> b in p.sizes && Padding(b) + 2 * NODE_SIZE <= p.sizes[b])
    && (forall b: nat :: Placed(p, b))
  }

  // Every block is free or live.
  ghost predicate Placed(p: Page, b: nat) {
    b in p.sizes ==> b in p.live || b in p.free
  }

  // The page invariant. It says nothing about the order of the free list, and adjacent free blocks
  // may stay unmerged.
  ghost predicate Inv(p: Page) {
    match p
    case Page(lo, hi, sizes, _, _, _) =>
      && 0 < lo < hi <= WORD_LIMIT
      && Tiles(sizes, lo, hi)
      && Accounted(p)
  }

  // ---- Primitive steps on blocks and list ----

  predicate IsFree(p: Page, i: nat) {
    i < |p.free| && p.free[i] in p.sizes
  }

  // Cut free block i after n bytes; the rest becomes the next list element.
  function Split(p: Page, i: nat, n: nat): Page
    requires IsFree(p, i) && n <= p.sizes[p.free[i]]
  {
    var b := p.free[i];
    p.(sizes := SplitSizes(p.sizes, b, n),
       free := p.free[..i + 1] + [b + n] + p.free[i + 1..])
  }

  // Unlink free block i and count it as used.
  function Take(p: Page, i: nat): Page
    requires IsFree(p, i)
  {
    p.(free := p.free[..i] + p.free[i + 1..], live := p.live + {p.free[i]}, used := p.used + p.sizes[p.free[i]])
  }

  // Link block b at list position k and count it as unused.
  function Give(p: Page, b: nat, k: nat): Page
    requires b in p.sizes && k <= |p.free|
  {
    p.(free := p.free[..k] + [b] + p.free[k..],
       live := p.live - {b},
       used := p.used - p.sizes[b])
  }

  predicate Touching(p: Page, k: nat) {
    IsFree(p, k) && IsFree(p, k + 1) && p.free[k] + p.sizes[p.free[k]] == p.free[k + 1]
  }

  // Join list element k with its list successor.
  function Merge(p: Page, k: nat): Page
    requires IsFree(p, k) && IsFree(p, k + 1)
  {
    p.(sizes := MergeSizes(p.sizes, p.free[k], p.free[k + 1]),
       free := p.free[..k + 1] + p.free[k + 2..])
  }

  lemma SplitInv(p: Page, i: nat, n: nat)
    requires Inv(p) && i < |p.free|
    requires NODE_SIZE <= n && n + NODE_SIZE <= p.sizes[p.free[i]]
    ensures Inv(Split(p, i, n))
  {
    SplitTiles(p.sizes, p.lo, p.hi, p.free[i], n);
    SplitAccounted(p, i, n);
  }

  lemma SplitAccounted(p: Page, i: nat, n: nat)
    requires Accounted(p) && i < |p.free| && n <= p.sizes[p.free[i]]
    requires p.free[i] + n !in p.sizes
    ensures Accounted(Split(p, i, n))
  {
    var q, b := Split(p, i, n), p.free[i];
    InsertMembers(p.free, i + 1, b + n);
    forall c: nat ensures Placed(q, c) {
      assert Placed(p, c);
    }
  }

  lemma TakeAccounted(p: Page, i: nat)
    requires Accounted(p) && i < |p.free|
    requires Padding(p.free[i]) + 2 * NODE_SIZE <= p.sizes[p.free[i]]
    ensures Accounted(Take(p, i))
  {
    var q, b := Take(p, i), p.free[i];
    PairsDiffer(p.free);
    RemoveMembers(p.free, i);
    forall c: nat ensures Placed(q, c) {
      assert Placed(p, c);
    }
  }

  lemma GiveAccounted(p: Page, b: nat, k: nat)
    requires Accounted(p) && b in p.live && k <= |p.free|
    ensures Accounted(Give(p, b, k))
  {
    var q := Give(p, b, k);
    InsertMembers(p.free, k, b);
    forall c: nat ensures Placed(q, c) {
      assert Placed(p, c);
    }
  }

  lemma MergeAccounted(p: Page, k: nat)
    requires Accounted(p) && Touching(p, k) && p.free[k] != p.free[k + 1]
    ensures Accounted(Merge(p, k))
  {
    var q := Merge(p, k);
    assert q.free == p.free[..k + 1] + p.free[k + 1 + 1..];
    PairsDiffer(p.free);
    RemoveMembers(p.free, k + 1);
    forall c: nat ensures Placed(q, c) {
      assert Placed(p, c);
    }
  }

  lemma MergeInv(p: Page, k: nat)
    requires Inv(p) && Touching(p, k)
    ensures Inv(Merge(p, k))
  {
    MergeTiles(p.sizes, p.lo, p.hi, p.free[k], p.free[k + 1]);
    MergeAccounted(p, k);
  }

  // The used size is the sum of the live blocks.
  ghost predicate Counted(p: Page) {
    p.live <= p.sizes.Keys && p.used == Total(p.live, p.sizes)
  }

  ghost predicate InFree(p: Page, x: int) {
    exists i :: 0 <= i < |p.free| && InBlock(p.sizes, p.free[i], x)
  }

  // ---- Allocation ----

  // First list position from i on whose block has room, |free| if there is none.
  function FirstFit(p: Page, size: nat, i: nat): (r: nat)
    requires i <= |p.free| && Listed(p)
    ensures i <= r <= |p.free|
    ensures r < |p.free| ==> RequiredSpace(size, p.free[r]) <= p.sizes[p.free[r]]
    ensures forall j :: i <= j < r ==> p.sizes[p.free[j]] < RequiredSpace(size, p.free[j])
    decreases |p.free| - i
  {
    if i == |p.free| || RequiredSpace(size, p.free[i]) <= p.sizes[p.free[i]] then i
    else FirstFit(p, size, i + 1)
  }

  // The request is one whose sum cannot wrap, or every free block is smaller than the sum it is compared with.
  predicate NoFalseFit(p: Page, size: nat)
    requires Listed(p)
  {
    && size < WORD_LIMIT
    && (SizeFitsWord(size) || forall j :: 0 <= j < |p.free| ==> p.sizes[p.free[j]] < RequiredSpace(size, p.free[j]))
  }

  // Hand out free block i: what exceeds the request by a node or more stays free, less is absorbed.
  function AllocateAt(p: Page, i: nat, total: nat): Page
    requires IsFree(p, i) && total <= p.sizes[p.free[i]]
  {
    if p.sizes[p.free[i]] - total >= NODE_SIZE then Take(Split(p, i, total), i) else Take(p, i)
  }

  // Returns the page afterwards and the payload pointer, 0 when no block fits.
  function Allocate(p: Page, size: nat): (Page, nat)
    requires Listed(p) && NoFalseFit(p, size)
  {
    var i := FirstFit(p, size, 0);
    if i == |p.free| then (p, 0)
    else (AllocateAt(p, i, RequiredSpace(size, p.free[i])), Payload(p.free[i]))
  }

  // ---- Deallocation ----

  // The first block start at or below x, looking back over at most n addresses.
  function BlockAt(sizes: map<nat, nat>, x: nat, n: nat): nat
    decreases n
  {
    if x in sizes || n == 0 || x == 0 then x else BlockAt(sizes, x - 1, n - 1)
  }

  // The block whose payload starts at ptr.
  function BaseOf(p: Page, ptr: nat): nat {
    BlockAt(p.sizes, if ptr >= NODE_SIZE then ptr - NODE_SIZE else 0, MIN_ALIGNMENT - 1)
  }

  // First list position from i on whose address is above ptr.
  function FirstAbove(free: seq<nat>, ptr: nat, i: nat): (r: nat)
    requires i <= |free|
    ensures i <= r <= |free|
    ensures r < |free| ==> ptr < free[r]
    ensures forall j :: i <= j < r ==> free[j] <= ptr
    decreases |free| - i
  {
    if i == |free| || ptr < free[i] then i else FirstAbove(free, ptr, i + 1)
  }

  // With exactly one free block the freed one goes behind it, whatever its address.
  function InsertPosition(free: seq<nat>, ptr: nat): (r: nat)
    ensures r <= |free|
  {
    if |free| == 1 then 1 else FirstAbove(free, ptr, 0)
  }

  // Whether `deallocate` hands the list predecessor to `coalesce`: never on the single-node path.
  predicate KnowsPrevious(free: seq<nat>, ptr: nat) {
    |free| >= 2 && InsertPosition(free, ptr) > 0
  }

  function MergeIfTouching(p: Page, k: nat): Page {
    if Touching(p, k) then Merge(p, k) else p
  }

  function Coalesce(p: Page, k: nat, knowsPrevious: bool): Page {
    var q := MergeIfTouching(p, k);
    if knowsPrevious && k > 0 then MergeIfTouching(q, k - 1) else q
  }

  predicate Owns(p: Page, ptr: nat) {
    p.lo <= ptr < p.hi
  }

  function Deallocate(p: Page, ptr: nat, coalesce: bool): Page {
    if !Owns(p, ptr) || BaseOf(p, ptr) !in p.sizes then p
    else
      var k := InsertPosition(p.free, ptr);
      var q := Give(p, BaseOf(p, ptr), k);
      if coalesce then Coalesce(q, k, KnowsPrevious(p.free, ptr)) else q
  }
}
