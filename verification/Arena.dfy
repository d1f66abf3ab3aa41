// The arena: a cache of virtual memory between the segments and the operating system.
module ArenaModel {
  import opened Arith
  import opened Words

  const VM_PAGE: nat := 4096

  predicate InRange(lo: nat, n: nat, x: nat) {
    lo <= x < lo + n
  }

  // The n addresses from lo on.
  function Range(lo: nat, n: nat): (r: set<nat>)
    ensures forall x :: x in r <==> lo <= x < lo + n
  {
    set x: nat | lo <= x < lo + n && InRange(lo, n, x)
  }

  lemma RangeSplit(lo: nat, n: nat, m: nat)
    ensures Range(lo, n + m) == Range(lo, n) + Range(lo + n, m)
    ensures Range(lo, n) !! Range(lo + n, m)
  {
  }

  // mmap and munmap work on whole pages: the size rounded up to pages.
  function PageCeil(n: nat): (r: nat)
    ensures n <= r < n + VM_PAGE && r % VM_PAGE == 0
  {
    (n + VM_PAGE - 1) / VM_PAGE * VM_PAGE
  }

  lemma PageCeilSum(a: nat, n: nat)
    requires a % VM_PAGE == 0
    ensures PageCeil(a + n) == a + PageCeil(n)
  {
  }

  lemma PageCeilMonotone(n: nat, m: nat)
    requires n <= m
    ensures PageCeil(n) <= PageCeil(m)
  {
  }

  // The distance from a to the first multiple of the alignment.
  function Delta(a: nat, alignment: nat): nat
    requires alignment > 0
  {
    var remainder := a % alignment;
    if remainder > 0 then alignment - remainder else 0
  }

  function AlignUp(a: nat, alignment: nat): nat
    requires alignment > 0
  {
    a + Delta(a, alignment)
  }

  // Alignments whose multiples, looked for from a page start on, are page starts.
  predicate GoodAlignment(alignment: nat) {
    alignment > 0 && (Divisible(alignment, VM_PAGE) || Divisible(VM_PAGE, alignment))
  }

  // Trimming gives back whole pages before the aligned start; the start survives if it is not in one of them.
  predicate StartKept(a: nat, alignment: nat)
    requires alignment > 0
  {
    AlignUp(a, alignment) >= a + PageCeil(AlignUp(a, alignment) - a)
  }

  lemma StartIsPage(a: nat, alignment: nat)
    requires a % VM_PAGE == 0 && GoodAlignment(alignment)
    ensures AlignUp(a, alignment) % VM_PAGE == 0
  {
    DivisibleMod(alignment, VM_PAGE);
    DivisibleMod(VM_PAGE, alignment);
    if alignment % VM_PAGE == 0 {
      if a % alignment != 0 {
        RoundUpDivides(a, alignment);
      }
      DividesTransitive(AlignUp(a, alignment), alignment, VM_PAGE);
    } else {
      DividesTransitive(a, VM_PAGE, alignment);
    }
  }

  // Over-allocation and trimming keep every region exactly for the good alignments, and only then does
  // every region start at a page.
  lemma AlignedStartsExact(alignment: nat)
    requires alignment > 0
    ensures (forall a: nat :: a % VM_PAGE == 0 ==> StartKept(a, alignment)) <==> GoodAlignment(alignment)
    ensures (forall a: nat :: a % VM_PAGE == 0 ==> AlignUp(a, alignment) % VM_PAGE == 0) <==> GoodAlignment(alignment)
  {
    if GoodAlignment(alignment) {
      forall a: nat | a % VM_PAGE == 0 ensures AlignUp(a, alignment) % VM_PAGE == 0 && StartKept(a, alignment) {
        StartIsPage(a, alignment);
        DividesDifference(AlignUp(a, alignment), a, VM_PAGE);
      }
    } else {
      assert VM_PAGE % VM_PAGE == 0;
      BadStart(alignment);
    }
  }

  lemma BadStart(alignment: nat)
    requires alignment > 0 && !GoodAlignment(alignment)
    ensures AlignUp(VM_PAGE, alignment) % VM_PAGE != 0 && !StartKept(VM_PAGE, alignment)
  {
    DivisibleMod(alignment, VM_PAGE);
    DivisibleMod(VM_PAGE, alignment);
    if alignment > VM_PAGE {
      QuotientIs(VM_PAGE, 0, VM_PAGE, alignment);
      assert AlignUp(VM_PAGE, alignment) == alignment;
    } else {
      var delta := alignment - VM_PAGE % alignment;
      assert 0 < delta < VM_PAGE;
      QuotientIs(VM_PAGE + delta, 1, delta, VM_PAGE);
    }
  }

  lemma DeltaAligns(a: nat, alignment: nat)
    requires alignment > 0
    ensures Delta(a, alignment) < alignment && Divisible(a + Delta(a, alignment), alignment)
    ensures a % VM_PAGE == 0 && GoodAlignment(alignment) ==>
      Delta(a, alignment) % VM_PAGE == 0 && (a + Delta(a, alignment)) % VM_PAGE == 0
  {
    if a % alignment != 0 {
      RoundUpDivides(a, alignment);
    }
    DivisibleMod(AlignUp(a, alignment), alignment);
    if a % VM_PAGE == 0 && GoodAlignment(alignment) {
      StartIsPage(a, alignment);
      DividesDifference(AlignUp(a, alignment), a, VM_PAGE);
    }
  }

  // What trimming takes lies inside the new mapping, and outside the region if it takes whole pages.
  lemma TrimInside(size: nat, align: nat, delta: nat)
    requires delta < align
    ensures PageCeil(delta) <= PageCeil(size + align)
    ensures size % VM_PAGE == 0 ==> PageCeil(size + align) == size + PageCeil(align)
    ensures delta % VM_PAGE == 0 ==> PageCeil(delta) == delta && delta + PageCeil(size) <= PageCeil(size + align)
  {
    PageCeilMonotone(delta, size + align);
    if delta % VM_PAGE == 0 {
      WholePages(delta, size, align);
    }
    if size % VM_PAGE == 0 {
      PageCeilSum(size, align);
    }
  }

  lemma WholePages(delta: nat, size: nat, align: nat)
    requires delta < align && delta % VM_PAGE == 0
    ensures PageCeil(delta) == delta && delta + PageCeil(size) <= PageCeil(size + align)
  {
    PageCeilSum(delta, 0);
    PageCeilSum(delta, size);
    PageCeilMonotone(delta + size, size + align);
  }

  // What is mapped after `total` bytes from a were added and `cut` bytes from b taken off again.
  lemma TrimmedSet(before: set<nat>, a: nat, total: nat, b: nat, cut: nat, region: nat, length: nat)
    requires Range(a, total) !! before && a <= b && b + cut <= a + total
    ensures before <= before + Range(a, total) - Range(b, cut)
    ensures a <= region && region + length <= a + total && (b + cut <= region || region + length <= b)
            ==> Range(region, length) <= before + Range(a, total) - Range(b, cut) && Range(region, length) !! before
  {
  }

  // The bytes that trimming takes, first and count.
  function Cut(buffer: nat, size: nat, align: nat): (nat, nat)
    requires align > 0
  {
    if Delta(buffer, align) > 0 then (buffer, PageCeil(Delta(buffer, align)))
    else if size % VM_PAGE == 0 then (buffer + size, PageCeil(align))
    else (buffer, 0)
  }

  lemma CutOutside(buffer: nat, size: nat, align: nat)
    requires align > 0 && buffer % VM_PAGE == 0
    ensures var r, total, (b, cut) := buffer + Delta(buffer, align), PageCeil(size + align), Cut(buffer, size, align);
      && buffer <= b && b + cut <= buffer + total && r + size <= buffer + total
      && (GoodAlignment(align) ==> r + PageCeil(size) <= buffer + total && (b + cut <= r || r + PageCeil(size) <= b))
  {
    DeltaAligns(buffer, align);
    TrimInside(size, align, Delta(buffer, align));
  }

  lemma TrimOutcome(before: set<nat>, buffer: nat, size: nat, align: nat)
    requires align > 0 && buffer % VM_PAGE == 0 && Range(buffer, PageCeil(size + align)) !! before
    ensures var r, total, (b, cut) := buffer + Delta(buffer, align), PageCeil(size + align), Cut(buffer, size, align);
      && Divisible(r, align) && r + size <= buffer + total
      && before <= before + Range(buffer, total) - Range(b, cut)
      && (GoodAlignment(align) ==>
            && r % VM_PAGE == 0 && r + PageCeil(size) <= buffer + total
            && Range(r, PageCeil(size)) <= before + Range(buffer, total) - Range(b, cut))
  {
    DeltaAligns(buffer, align);
    CutOutside(buffer, size, align);
    var (b, cut) := Cut(buffer, size, align);
    TrimmedSet(before, buffer, PageCeil(size + align), b, cut, buffer + Delta(buffer, align), PageCeil(size));
  }

  // What stays mapped: the region alone if the mapping starts aligned and whole pages were asked for; otherwise
  // everything from the region's start on.
  lemma TrimExact(before: set<nat>, buffer: nat, size: nat, align: nat)
    requires align > 0 && PageStart(buffer) && Range(buffer, PageCeil(size + align)) !! before
    ensures var delta, total, (b, cut) := Delta(buffer, align), PageCeil(size + align), Cut(buffer, size, align);
      && delta < align
      && (delta == 0 ==> before + Range(buffer, total) - Range(b, cut)
                         == before + Range(buffer, if PageStart(size) then size else total))
      && (delta > 0 && GoodAlignment(align) ==>
            delta <= total
            && before + Range(buffer, total) - Range(b, cut) == before + Range(buffer + delta, total - delta))
  {
    var delta := Delta(buffer, align);
    DeltaAligns(buffer, align);
    TrimInside(size, align, delta);
    if delta > 0 && GoodAlignment(align) {
      RangeSplit(buffer, delta, PageCeil(size + align) - delta);
    } else if delta == 0 && PageStart(size) {
      RangeSplit(buffer, size, PageCeil(align));
    }
  }

  // Walking whole pages from a page start meets the end of the last page.
  lemma LastPage(address: nat, end: nat)
    requires address % VM_PAGE == 0
    ensures address < end ==> address + VM_PAGE <= PageCeil(end)
    ensures end <= address <= PageCeil(end) ==> address == PageCeil(end)
  {
  }

  predicate PageStart(a: nat) {
    a % VM_PAGE == 0
  }

  lemma NextPageStart(a: nat)
    ensures PageStart(a + VM_PAGE) <==> PageStart(a)
  {
  }

  // What is left mapped after the pages from `from` up to `address` were given back; munmap refuses all of them
  // if they do not start at a page.
  ghost function Released(before: set<nat>, from: nat, address: nat): set<nat>
    requires from <= address
  {
    if PageStart(from) then before - Range(from, address - from) else before
  }

  lemma ReleaseStep(before: set<nat>, from: nat, address: nat, end: nat)
    requires from <= address < end && PageStart(address) == PageStart(from)
    requires PageStart(from) ==> address <= PageCeil(end)
    ensures PageStart(address + VM_PAGE) == PageStart(from) && (PageStart(from) ==> address + VM_PAGE <= PageCeil(end))
    ensures var now := Released(before, from, address);
      Released(before, from, address + VM_PAGE)
        == if PageStart(address) then now - Range(address, PageCeil(VM_PAGE)) else now
  {
    NextPageStart(address);
    if PageStart(from) {
      LastPage(address, end);
      RangeSplit(from, address - from, VM_PAGE);
      PageCeilSum(VM_PAGE, 0);
    }
  }

  lemma BumpAligned(buffer: nat, used: nat, size: nat, alignment: nat)
    requires alignment > 0 && Divisible(buffer, alignment)
    ensures Divisible(used, alignment) ==> Divisible(buffer + used, alignment)
    ensures Divisible(used, alignment) && Divisible(size, alignment) ==> Divisible(used + size, alignment)
  {
    if Divisible(used, alignment) {
      DivisibleSum(buffer, used, alignment);
      if Divisible(size, alignment) {
        DivisibleSum(used, size, alignment);
      }
    }
  }

  lemma PageStartSum(a: nat, n: nat)
    requires PageStart(a)
    ensures PageStart(a + n) <==> PageStart(n)
  {
  }

  lemma BumpSplit(buffer: nat, cacheSize: nat, used: nat, size: nat)
    requires used + size <= cacheSize
    ensures var unused := Range(buffer + used, PageCeil(cacheSize) - used);
      && unused == Range(buffer + used, size) + Range(buffer + (used + size), PageCeil(cacheSize) - (used + size))
      && Range(buffer + used, size) !! Range(buffer + (used + size), PageCeil(cacheSize) - (used + size))
    ensures used + size <= PageCeil(cacheSize)
  {
    RangeSplit(buffer + used, size, PageCeil(cacheSize) - used - size);
  }

  lemma UnusedPages(buffer: nat, cacheSize: nat, used: nat)
    requires PageStart(buffer) && used <= cacheSize
    ensures PageStart(buffer + used) <==> PageStart(used)
    ensures Range(buffer + used, PageCeil(buffer + cacheSize) - (buffer + used))
      == Range(buffer + used, PageCeil(cacheSize) - used)
  {
    PageCeilSum(buffer, cacheSize);
    PageStartSum(buffer, used);
  }

  lemma WholeUnused(buffer: nat, cacheSize: nat, used: nat)
    requires used <= cacheSize
    ensures PageStart(used) && used == cacheSize ==> Range(buffer + used, PageCeil(cacheSize) - used) == {}
  {
    if PageStart(used) {
      PageCeilSum(used, 0);
    }
  }

  lemma NoPages()
    ensures PageCeil(0) == 0 && Range(0, PageCeil(0) - 0) == {}
  {
  }

  // The operating system as an oracle: any page-aligned answer that overlaps nothing mapped, or none.
  class System {
    const reuse: bool         // whether released addresses may be mapped again
    var mapped: set<nat>      // bytes mapped to the process
    var seen: set<nat>        // bytes that ever were
    ghost var refusals: nat   // how many requests were refused

    constructor (reuse: bool)
      ensures this.reuse == reuse && mapped == {} && seen == {} && refusals == 0
    {
      this.reuse := reuse;
      mapped, seen, refusals := {}, {}, 0;
    }

    // Some request was refused meanwhile.
    twostate predicate Refused()
      reads this
    {
      refusals > old(refusals)
    }

    predicate Free(a: nat, size: nat)
      reads this
    {
      && a > 0 && a % VM_PAGE == 0 && a + PageCeil(size) <= WORD_LIMIT
      && Range(a, PageCeil(size)) !! (if reuse then mapped else seen)
    }

    method Map(size: nat) returns (a: nat)
      requires mapped <= seen
      modifies this
      ensures mapped <= seen
      ensures a == 0 ==> mapped == old(mapped) && seen == old(seen) && refusals == old(refusals) + 1
      ensures a != 0 ==>
        && a % VM_PAGE == 0 && a + PageCeil(size) <= WORD_LIMIT && refusals == old(refusals)
        && mapped == old(mapped) + Range(a, PageCeil(size)) && Range(a, PageCeil(size)) !! old(mapped)
        && seen == old(seen) + Range(a, PageCeil(size)) && (!reuse ==> Range(a, PageCeil(size)) !! old(seen))
    {
      a := *;
      if !Free(a, size) {
        refusals := refusals + 1;
        return 0;
      }
      mapped := mapped + Range(a, PageCeil(size));
      seen := seen + Range(a, PageCeil(size));
    }

    // munmap fails for an address inside a page, and takes whole pages otherwise.
    method Unmap(a: nat, size: nat)
      modifies this`mapped
      ensures mapped == if PageStart(a) then old(mapped) - Range(a, PageCeil(size)) else old(mapped)
    {
      if a % VM_PAGE == 0 {
        mapped := mapped - Range(a, PageCeil(size));
      }
    }
  }

  class Arena {
    const system: System
    var alignment: nat        // m_page_alignment
    var cacheBuffer: nat      // m_cache_buffer
    var cacheSize: nat        // m_cache_size
    var cacheUsed: nat        // m_cache_used_size

    ghost var owned: set<nat>       // bytes handed out and not released
    ghost var history: set<nat>     // bytes ever handed out

    // The part of the cache that nobody asked for yet, to the end of its last page.
    ghost function Unused(): set<nat>
      requires cacheUsed <= cacheSize
      reads this
    {
      Range(cacheBuffer + cacheUsed, PageCeil(cacheSize) - cacheUsed)
    }

    ghost predicate Valid()
      reads this, system
    {
      && GoodAlignment(alignment)
      && cacheUsed <= cacheSize && cacheBuffer + PageCeil(cacheSize) <= WORD_LIMIT
      && (cacheSize > 0 ==> cacheBuffer > 0)
      && Divisible(cacheBuffer, alignment) && cacheBuffer % VM_PAGE == 0
      && owned <= system.mapped <= system.seen
      && Unused() <= system.mapped
      && owned <= history <= system.seen
      && Unused() !! owned
      && (!system.reuse ==> history !! system.mapped - owned)
    }

    // Holds as long as only multiples of the alignment are requested.
    ghost predicate Aligned()
      requires alignment > 0
      reads this
    {
      Divisible(cacheUsed, alignment)
    }

    // Holds as long as only whole pages are requested.
    ghost predicate Paged()
      reads this
    {
      cacheUsed % VM_PAGE == 0
    }

    constructor (system: System)
      requires system.mapped <= system.seen
      ensures Valid() && Aligned() && Paged() && this.system == system && alignment == VM_PAGE
      ensures cacheSize == cacheBuffer == 0 && owned == {} && history == {}
    {
      this.system := system;
      alignment := VM_PAGE;
      cacheBuffer, cacheSize, cacheUsed := 0, 0, 0;
      owned, history := {}, {};
    }

    // Over-allocate by one alignment, then give back what lies before the aligned start, or the
    // excess at the end when the start is aligned already. The mapping starts at `buffer`.
    method AllocateAligned(size: nat, align: nat) returns (r: nat, ghost buffer: nat)
      requires system.mapped <= system.seen && align > 0
      modifies system
      ensures system.mapped <= system.seen && old(system.seen) <= system.seen && old(system.mapped) <= system.mapped
      ensures !system.reuse ==> system.mapped - old(system.mapped) !! old(system.seen)
      ensures r == 0 ==> system.mapped == old(system.mapped) && system.refusals == old(system.refusals) + 1
      ensures r != 0 ==>
        Divisible(r, align) && Range(r, size) !! old(system.mapped) && system.refusals == old(system.refusals)
      ensures r != 0 ==> PageStart(buffer) && buffer <= r < buffer + align
      ensures r != 0 && r == buffer ==>
        system.mapped == old(system.mapped) + Range(r, if PageStart(size) then size else PageCeil(size + align))
      ensures r != 0 && r > buffer && GoodAlignment(align) ==>
        buffer + PageCeil(size + align) >= r
        && system.mapped == old(system.mapped) + Range(r, buffer + PageCeil(size + align) - r)
      ensures r != 0 && GoodAlignment(align) ==>
        && r % VM_PAGE == 0 && r + PageCeil(size) <= WORD_LIMIT
        && Range(r, PageCeil(size)) <= system.mapped && Range(r, PageCeil(size)) !! old(system.mapped)
        && (!system.reuse ==> Range(r, PageCeil(size)) !! old(system.seen))
    {
      var actualSize := size + align;
      var answer := system.Map(actualSize);
      if answer == 0 {
        return 0, 0;
      }
      buffer := answer;
      TrimOutcome(old(system.mapped), answer, size, align);
      TrimExact(old(system.mapped), answer, size, align);
      r := Trim(answer, size, align);
    }

    // Give back what the alignment does not need of a new mapping.
    method Trim(buffer: nat, size: nat, align: nat) returns (r: nat)
      requires align > 0 && buffer % VM_PAGE == 0
      modifies system`mapped
      ensures r == buffer + Delta(buffer, align)
      ensures var (b, cut) := Cut(buffer, size, align); system.mapped == old(system.mapped) - Range(b, cut)
    {
      var remainder := buffer % align;
      var delta := 0;
      PageStartSum(buffer, size);
      if remainder > 0 {
        delta := align - remainder;
        system.Unmap(buffer, delta);
      } else {
        system.Unmap(buffer + (size + align) - align, align);
      }
      return buffer + delta;
    }

    method BuildCache(size: nat) returns (ok: bool)
      requires Valid() && cacheSize == 0 && cacheUsed == 0
      modifies this`cacheBuffer, this`cacheSize, this`cacheUsed, system
      ensures Valid() && Aligned() && Paged()
      ensures ok ==> cacheSize == size && cacheUsed == 0 && cacheBuffer > 0 && system.refusals == old(system.refusals)
      ensures !ok ==> cacheSize == cacheUsed == 0 && system.refusals == old(system.refusals) + 1
      ensures !system.reuse ==> system.mapped - old(system.mapped) !! old(system.seen)
    {
      var buffer;
      ghost var start;
      buffer, start := AllocateAligned(size, alignment);
      if buffer == 0 {
        return false;
      }
      cacheBuffer, cacheUsed, cacheSize := buffer, 0, size;
      return true;
    }

    // The check looks at the old alignment, so any new one is accepted. Only the good ones keep regions whole.
    method Create(cacheCapacity: nat, pageAlignment: nat) returns (ok: bool)
      requires Valid() && cacheSize == 0 && cacheBuffer == 0 && cacheUsed == 0 && pageAlignment > 0
      modifies this`alignment, this`cacheBuffer, this`cacheSize, this`cacheUsed, system
      ensures ok ==> alignment == pageAlignment && cacheSize == cacheCapacity && cacheUsed == 0
      ensures ok ==> Divisible(cacheBuffer, alignment)
      ensures !ok ==> old(alignment) % VM_PAGE != 0 || system.refusals == old(system.refusals) + 1
      ensures ok ==> old(alignment) % VM_PAGE == 0 && system.refusals == old(system.refusals)
      ensures ok && GoodAlignment(pageAlignment) ==> Valid() && Aligned() && Paged()
      ensures !ok && old(alignment) % VM_PAGE != 0 ==> unchanged(this) && unchanged(system)
    {
      if alignment % VM_PAGE != 0 {
        return false;
      }
      alignment := pageAlignment;
      var buffer;
      ghost var start;
      buffer, start := AllocateAligned(cacheCapacity, alignment);
      if buffer == 0 {
        return false;
      }
      cacheBuffer, cacheUsed, cacheSize := buffer, 0, cacheCapacity;
      return true;
    }

    // Give every page of the cache that was never requested back to the system, one by one.
    method Destroy()
      modifies this`cacheBuffer, this`cacheSize, this`cacheUsed, system`mapped
      ensures cacheSize == cacheBuffer == cacheUsed == 0
      ensures var (from, end) := (old(cacheBuffer + cacheUsed), old(cacheBuffer + cacheSize));
        system.mapped == if from < end && PageStart(from) then old(system.mapped) - Range(from, PageCeil(end) - from)
                         else old(system.mapped)
      ensures old(Valid()) ==>
        && Valid() && Aligned() && Paged()
        && (old(cacheUsed < cacheSize && Paged()) ==> system.mapped == old(system.mapped) - old(Unused()))
    {
      if cacheSize > cacheUsed {
        if Valid() {
          UnusedPages(cacheBuffer, cacheSize, cacheUsed);
        }
        ReleasePages(cacheBuffer + cacheUsed, cacheBuffer + cacheSize);
      }
      cacheSize, cacheUsed, cacheBuffer := 0, 0, 0;
      NoPages();
    }

    method ReleasePages(from: nat, end: nat)
      requires from < end
      modifies system`mapped
      ensures system.mapped ==
        if PageStart(from) then old(system.mapped) - Range(from, PageCeil(end) - from) else old(system.mapped)
    {
      var address := from;
      while address < end
        invariant from <= address && PageStart(address) == PageStart(from)
        invariant PageStart(from) ==> address <= PageCeil(end)
        invariant system.mapped == Released(old(system.mapped), from, address)
      {
        ReleaseStep(old(system.mapped), from, address, end);
        system.Unmap(address, VM_PAGE);
        address := address + VM_PAGE;
      }
      if PageStart(from) {
        LastPage(address, end);
      }
    }

    // Whether the cache holds the request and one alignment more.
    ghost predicate HasRoom(size: nat)
      reads this
    {
      cacheUsed + size + alignment <= cacheSize
    }

    // Discard the cache and build one of exactly the requested size when it is running low.
    method MakeRoom(size: nat) returns (ok: bool)
      requires Valid()
      modifies this`cacheBuffer, this`cacheSize, this`cacheUsed, system
      ensures Valid()
      ensures old(HasRoom(size)) ==> ok && unchanged(this) && unchanged(system)
      ensures ok && !old(HasRoom(size)) ==> cacheSize == size && cacheUsed == 0
      ensures !old(HasRoom(size)) && old(Paged()) && !system.reuse ==> old(Unused()) !! system.mapped
      ensures ok ==> size <= cacheSize - cacheUsed && cacheBuffer > 0 && system.refusals == old(system.refusals)
      ensures ok && old(Aligned()) ==> Aligned()
      ensures ok && old(Paged()) ==> Paged()
      ensures !ok ==> Aligned() && Paged() && system.refusals == old(system.refusals) + 1
    {
      if size + alignment > cacheSize - cacheUsed {
        WholeUnused(cacheBuffer, cacheSize, cacheUsed);
        Destroy();
        ok := BuildCache(size);
      } else {
        ok := true;
      }
    }

    // Hand out the next region of the cache.
    method Bump(size: nat) returns (r: nat)
      requires Valid() && size <= cacheSize - cacheUsed && cacheBuffer > 0
      modifies this`cacheUsed, this`owned, this`history
      ensures Valid() && r > 0 && r + size <= WORD_LIMIT
      ensures r == cacheBuffer + old(cacheUsed) == cacheBuffer + cacheUsed - size
      ensures Range(r, size) !! old(owned) && owned == old(owned) + Range(r, size)
      ensures history == old(history) + Range(r, size) && (!system.reuse ==> Range(r, size) !! old(history))
      ensures old(Paged()) ==> r % VM_PAGE == 0 && (size % VM_PAGE == 0 ==> Paged())
      ensures old(Aligned()) ==> Divisible(r, alignment) && (Divisible(size, alignment) ==> Aligned())
    {
      r := cacheBuffer + cacheUsed;
      BumpAligned(cacheBuffer, cacheUsed, size, alignment);
      if Paged() {
        PageStartSum(cacheBuffer, cacheUsed);
        PageStartSum(cacheUsed, size);
      }
      BumpSplit(cacheBuffer, cacheSize, cacheUsed, size);
      cacheUsed := cacheUsed + size;
      owned := owned + Range(r, size);
      history := history + Range(r, size);
    }

    // A request that the cache had room for took its next bytes, and nothing was asked of the system.
    twostate predicate FromCache(size: nat)
      reads this, system
    {
      old(HasRoom(size)) ==>
        && cacheBuffer == old(cacheBuffer) && cacheSize == old(cacheSize) && cacheUsed == old(cacheUsed) + size
        && system.seen == old(system.seen)
    }

    // A cache with room hands out its next bytes; otherwise the region is all of a new cache.
    method Allocate(size: nat) returns (r: nat)
      requires Valid()
      modifies this, system
      ensures Valid() && alignment == old(alignment)
      ensures FromCache(size) && (old(HasRoom(size)) ==> r == old(cacheBuffer + cacheUsed) && unchanged(system))
      ensures r != 0 && !old(HasRoom(size)) ==> r == cacheBuffer && cacheUsed == cacheSize == size
      ensures !old(HasRoom(size)) && old(Paged()) && !system.reuse ==> old(Unused()) !! system.mapped
      ensures r == 0 ==> owned == old(owned) && history == old(history) && system.refusals == old(system.refusals) + 1
      ensures r != 0 ==>
        && r + size <= WORD_LIMIT && system.refusals == old(system.refusals)
        && Range(r, size) !! old(owned) && owned == old(owned) + Range(r, size)
        && history == old(history) + Range(r, size)
        && (!system.reuse ==> Range(r, size) !! old(history))
        && (old(Aligned()) ==> Divisible(r, alignment))
        && (old(Paged()) ==> r % VM_PAGE == 0)
      ensures old(Aligned()) && Divisible(size, alignment) ==> Aligned()
      ensures old(Paged()) && size % VM_PAGE == 0 ==> Paged()
    {
      var ok := MakeRoom(size);
      if !ok {
        return 0;
      }
      r := Bump(size);
    }

    // Give whole pages that were handed out back to the system.
    method ReleaseToSystem(address: nat, size: nat)
      requires Valid() && Range(address, size) <= owned && address % VM_PAGE == 0 && size % VM_PAGE == 0
      modifies this`owned, system`mapped
      ensures Valid() && owned == old(owned) - Range(address, size)
      ensures system.mapped == old(system.mapped) - Range(address, size)
    {
      PageCeilSum(size, 0);
      system.Unmap(address, size);
      owned := owned - Range(address, size);
    }
  }
}
