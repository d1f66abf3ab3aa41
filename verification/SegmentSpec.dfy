// A segment as a value: its pages in list order and the page that served last.
module SegmentSpec {
  import opened Words
  import P = LogicalPages

  const HEADER: nat := 64             // page object size and page header size

  datatype Config = Config(
    pageSize: nat,        // m_logical_page_size, header included
    sizeClass: nat,       // m_size_class, 0 for any size
    coalesce: bool,       // coalesce policy of any-size pages
    threshold: nat,       // m_page_recycling_threshold
    coefficient: real)    // m_grow_coefficient

  // A logical page in the list: its address, its memory, and the IS_USED flag of its header.
  datatype Slot = Slot(addr: nat, page: P.PageState, isUsed: bool)

  // The list is a type parameter so that the verifier does not rank a segment above its pages.
  datatype SegOf<Slots> = Seg(cfg: Config, slots: Slots, last: nat)

  type Seg = SegOf<seq<Slot>>

  predicate ValidConfig(c: Config) {
    && c.pageSize % 4096 == 0 && HEADER < c.pageSize < WORD_LIMIT
    && P.Creatable(HEADER, c.pageSize, c.sizeClass)
  }

  ghost predicate SlotOk(c: Config, slot: Slot) {
    && 0 < slot.addr && slot.addr % 4096 == 0 && slot.addr + c.pageSize <= WORD_LIMIT
    && P.Inv(slot.page)
    && P.Lo(slot.page) == slot.addr + HEADER && P.Hi(slot.page) == slot.addr + c.pageSize
    && P.SizeClass(slot.page) == c.sizeClass && (slot.page.FixedPage? <==> c.sizeClass != 0)
    && (slot.page.AnySizePage? ==> slot.page.coalesce == c.coalesce)
  }

  ghost predicate GoodSlot(s: Seg, i: nat) {
    i < |s.slots| ==> SlotOk(s.cfg, s.slots[i])
  }

  ghost predicate SlotsApart(s: Seg, i: nat, j: nat) {
    i < j < |s.slots| ==>
      s.slots[i].addr + s.cfg.pageSize <= s.slots[j].addr || s.slots[j].addr + s.cfg.pageSize <= s.slots[i].addr
  }

  ghost predicate Inv(s: Seg) {
    && ValidConfig(s.cfg)
    && (forall i: nat :: GoodSlot(s, i))
    && (forall i: nat, j: nat :: SlotsApart(s, i, j))
    && (s.last == 0 || IndexAt(s.slots, s.cfg.pageSize, s.last, 0) < |s.slots|)
    && (s.last != 0 ==> s.slots[IndexAt(s.slots, s.cfg.pageSize, s.last, 0)].addr == s.last)
  }

  ghost predicate IsLive(s: Seg, i: nat, ptr: nat) {
    i < |s.slots| && ptr in P.LivePtrs(s.slots[i].page)
  }

  // All pointers the segment has handed out and not taken back.
  ghost function LivePtrs(s: Seg): set<nat> {
    set i, p | 0 <= i < |s.slots| && p in P.LivePtrs(s.slots[i].page) :: p
  }

  function InPage(slot: Slot, pageSize: nat, ptr: nat): bool {
    slot.addr <= ptr < slot.addr + pageSize
  }

  // Linear search: the first page from i on whose address range holds ptr, |slots| if none does.
  function IndexAt(slots: seq<Slot>, pageSize: nat, ptr: nat, i: nat): (r: nat)
    requires i <= |slots|
    ensures i <= r <= |slots|
    ensures r < |slots| ==> InPage(slots[r], pageSize, ptr)
    ensures forall j :: i <= j < r ==> !InPage(slots[j], pageSize, ptr)
    decreases |slots| - i
  {
    if i == |slots| || InPage(slots[i], pageSize, ptr) then i else IndexAt(slots, pageSize, ptr, i + 1)
  }

  // ---- Allocation from the pages at hand ----

  // First page in [i, n) that serves the request, n if all refuse.
  function FirstServing(s: Seg, size: nat, i: nat, n: nat): (r: nat)
    requires i <= n <= |s.slots| && P.SizeOk(size) && AllUsable(s)
    ensures i <= r <= n
    ensures r < n ==> P.Allocate(s.slots[r].page, size).1 != 0
    ensures forall j :: i <= j < r ==> P.Allocate(s.slots[j].page, size).1 == 0
    decreases n - i
  {
    if i == n || P.Allocate(s.slots[i].page, size).1 != 0 then i else FirstServing(s, size, i + 1, n)
  }

  predicate AllUsable(s: Seg) {
    forall j :: 0 <= j < |s.slots| ==> P.Usable(s.slots[j].page)
  }

  // Ask page k; it becomes the page that served last when it serves.
  function AskPage(s: Seg, k: nat, size: nat): (Seg, nat)
    requires k < |s.slots| && P.Usable(s.slots[k].page) && P.SizeOk(size)
  {
    if P.Allocate(s.slots[k].page, size).1 == 0 then (s, 0) else ServeFrom(s, k, size)
  }

  function ServeFrom(s: Seg, k: nat, size: nat): (Seg, nat)
    requires k < |s.slots| && P.Usable(s.slots[k].page) && P.SizeOk(size)
  {
    var (page, ptr) := P.Allocate(s.slots[k].page, size);
    (s.(slots := s.slots[k := s.slots[k].(page := page)], last := s.slots[k].addr), ptr)
  }

  // Where the next-fit search begins.
  function Start(s: Seg): nat {
    if s.last == 0 then 0 else IndexAt(s.slots, s.cfg.pageSize, s.last, 0)
  }

  function MaxObjectSize(c: Config): nat
    requires HEADER < c.pageSize
  {
    c.pageSize - HEADER
  }

  // Index of the page that next-fit picks, |slots| if every page refuses.
  function NextFit(s: Seg, size: nat): (r: nat)
    requires AllUsable(s) && P.SizeOk(size)
    ensures r <= |s.slots|
  {
    var k := FirstServing(s, size, Start(s), |s.slots|);
    if k < |s.slots| then k
    else
      var j := FirstServing(s, size, 0, Start(s));
      if j < Start(s) then j else |s.slots|
  }

  // Next fit over the pages at hand; 0 when the size is too large or every page refuses.
  function TryAllocate(s: Seg, size: nat): (Seg, nat)
    requires ValidConfig(s.cfg) && AllUsable(s)
  {
    if size > MaxObjectSize(s.cfg) then (s, 0)
    else
      var k := NextFit(s, size);
      if k == |s.slots| then (s, 0) else ServeFrom(s, k, size)
  }

  // ---- Growth ----

  function CeilDiv(n: nat, d: nat): nat
    requires d > 0
  {
    (n + d - 1) / d
  }

  // SizeUtilities::get_required_page_count_for_allocation; objectSize 0 would divide by zero.
  function RequiredPageCount(pageSize: nat, headerSize: nat, objectSize: nat, objectCount: nat): nat
    requires headerSize <= pageSize && 0 < objectSize <= pageSize - headerSize
  {
    var perPage := (pageSize - headerSize) / objectSize;
    PerPagePositive(pageSize - headerSize, objectSize);
    var needed := CeilDiv(objectCount, perPage);
    if needed == 0 then 1 else needed
  }

  lemma PerPagePositive(room: nat, objectSize: nat)
    requires 0 < objectSize <= room
    ensures room / objectSize > 0
  {
  }

  predicate Countable(c: Config, size: nat) {
    HEADER < c.pageSize && size <= MaxObjectSize(c) && c.sizeClass <= MaxObjectSize(c)
      && (c.sizeClass == 0 ==> size > 0)
  }

  function MinimumPages(c: Config, size: nat): nat
    requires Countable(c, size)
  {
    if c.sizeClass == 0 then RequiredPageCount(c.pageSize, HEADER, size, 1)
    else RequiredPageCount(c.pageSize, HEADER, c.sizeClass, size / c.sizeClass)
  }

  function DesiredPages(c: Config, pageCount: nat, size: nat): nat
    requires Countable(c, size)
  {
    var minimum := MinimumPages(c, size);
    if c.coefficient > 0.0 then
      var desired := (pageCount as real * c.coefficient).Floor;
      if desired < minimum then minimum else desired
    else minimum
  }

  // n fresh pages, one behind the other from address `buffer`.
  function FreshSlots(c: Config, buffer: nat, n: nat): seq<Slot>
    requires ValidConfig(c)
    decreases n
  {
    if n == 0 then []
    else [Slot(buffer, P.Fresh(buffer + HEADER, buffer + c.pageSize, c.sizeClass, c.coalesce), true)]
         + FreshSlots(c, buffer + c.pageSize, n - 1)
  }

  function Grow(s: Seg, buffer: nat, n: nat): Seg
    requires ValidConfig(s.cfg)
  {
    s.(slots := s.slots + FreshSlots(s.cfg, buffer, n))
  }

  // Append pages in a new buffer and ask the first of them.
  function Extend(s: Seg, size: nat, buffer: nat): (Seg, nat)
    requires ValidConfig(s.cfg) && Countable(s.cfg, size)
  {
    var g := Grow(s, buffer, DesiredPages(s.cfg, |s.slots|, size));
    AskPage(g, |s.slots|, size)
  }

  ghost predicate Refuses(page: P.PageState, size: nat) {
    P.Usable(page) && P.SizeOk(size) && P.Allocate(page, size).1 == 0
  }

  // Growing an any-size segment for size 0 would divide by that size.
  ghost predicate DividesByZero(s: Seg, size: nat) {
    s.cfg.sizeClass == 0 && size == 0 && forall i :: 0 <= i < |s.slots| ==> Refuses(s.slots[i].page, size)
  }

  // The pages at hand refuse, and the request is not too large: only then does a segment grow.
  ghost predicate Grows(s: Seg, size: nat)
    requires ValidConfig(s.cfg) && AllUsable(s)
  {
    TryAllocate(s, size).1 == 0 && size <= MaxObjectSize(s.cfg)
  }

  // An unbounded segment; `buffer` is what the arena answers if it is asked, 0 for a failure.
  ghost function AllocateUnbounded(s: Seg, size: nat, buffer: nat): (Seg, nat)
    requires Inv(s) && AllUsable(s) && !DividesByZero(s, size)
  {
    var (t, ptr) := TryAllocate(s, size);
    if ptr != 0 || size > MaxObjectSize(s.cfg) || buffer == 0 then (t, ptr) else Extend(s, size, buffer)
  }

  // ---- Deallocation with immediate recycling ----

  function WithPage(s: Seg, k: nat, page: P.PageState): Seg
    requires k < |s.slots|
  {
    s.(slots := s.slots[k := s.slots[k].(page := page)])
  }

  // Unlink page k; if it served last, its predecessor takes that role, else its successor, else none.
  function RemovePage(s: Seg, k: nat): Seg
    requires k < |s.slots|
  {
    s.(slots := s.slots[..k] + s.slots[k + 1..],
       last := if s.last != s.slots[k].addr then s.last
               else if k > 0 then s.slots[k - 1].addr
               else if k + 1 < |s.slots| then s.slots[k + 1].addr
               else 0)
  }

  // What happens to page k once the pointer is back in it.
  function Settle(s: Seg, k: nat): Seg
    requires k < |s.slots|
  {
    if P.Used(s.slots[k].page) != 0 then s
    else if |s.slots| > s.cfg.threshold then RemovePage(s, k)
    else s.(slots := s.slots[k := s.slots[k].(isUsed := false)])
  }

  function DeallocateAt(s: Seg, k: nat, ptr: nat): Seg
    requires k < |s.slots|
  {
    Settle(WithPage(s, k, P.Deallocate(s.slots[k].page, ptr)), k)
  }

  // deallocate_by_search.
  function Deallocate(s: Seg, ptr: nat): Seg {
    var k := IndexAt(s.slots, s.cfg.pageSize, ptr, 0);
    if k == |s.slots| then s else DeallocateAt(s, k, ptr)
  }
}
