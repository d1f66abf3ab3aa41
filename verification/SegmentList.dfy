// How page headers in memory spell out a segment's page list, and the bytes those pages occupy.
module SegmentList {
  import opened Arith
  import opened Words
  import opened ArenaModel
  import opened SegmentSpec
  import opened SegmentTheorems
  import P = LogicalPages

  // The header at a page's first bytes: its links, its flag and the page itself.
  datatype Header = Header(next: nat, prev: nat, isUsed: bool, page: P.PageState)

  ghost function AddrAt(slots: seq<Slot>, i: int): nat {
    if 0 <= i < |slots| then slots[i].addr else 0
  }

  ghost predicate NodeAt(headers: map<nat, Header>, slots: seq<Slot>, i: nat) {
    i < |slots| ==>
      && slots[i].addr in headers
      && headers[slots[i].addr] == Header(AddrAt(slots, i + 1), AddrAt(slots, i - 1), slots[i].isUsed, slots[i].page)
  }

  // next and prev are each other's inverse along the list, and only listed pages have headers.
  ghost predicate Linked(headers: map<nat, Header>, slots: seq<Slot>) {
    && (forall i: nat :: NodeAt(headers, slots, i))
    && (forall a: nat :: Stray(headers, a) ==> HasPage(slots, a))
  }

  ghost predicate Stray(headers: map<nat, Header>, a: nat) {
    a in headers
  }

  // Some page starts at a.
  ghost predicate HasPage(slots: seq<Slot>, a: nat) {
    exists i: nat :: PageAt(slots, i, a)
  }

  ghost predicate PageAt(slots: seq<Slot>, i: nat, a: nat) {
    i < |slots| && slots[i].addr == a
  }

  ghost predicate Distinct(slots: seq<Slot>, i: nat, j: nat) {
    i < j < |slots| ==> slots[i].addr != slots[j].addr
  }

  ghost predicate AllDistinct(slots: seq<Slot>) {
    forall i: nat, j: nat :: Distinct(slots, i, j)
  }

  lemma InvDistinct(s: Seg)
    requires Inv(s)
    ensures AllDistinct(s.slots)
    ensures forall i :: 0 <= i < |s.slots| ==> s.slots[i].addr > 0
  {
    forall i: nat, j: nat ensures Distinct(s.slots, i, j) {
      assert SlotsApart(s, i, j);
    }
    forall i | 0 <= i < |s.slots| ensures s.slots[i].addr > 0 {
      assert GoodSlot(s, i);
    }
  }

  // Writing page and flag of one header.
  lemma UpdateLinked(headers: map<nat, Header>, slots: seq<Slot>, k: nat, page: P.PageState, isUsed: bool)
    requires Linked(headers, slots) && AllDistinct(slots) && k < |slots|
    ensures slots[k].addr in headers
    ensures Linked(headers[slots[k].addr := headers[slots[k].addr].(page := page, isUsed := isUsed)],
                   slots[k := slots[k].(page := page, isUsed := isUsed)])
  {
    assert NodeAt(headers, slots, k);
    var h := headers[slots[k].addr := headers[slots[k].addr].(page := page, isUsed := isUsed)];
    var t := slots[k := slots[k].(page := page, isUsed := isUsed)];
    forall i: nat ensures NodeAt(h, t, i) {
      assert NodeAt(headers, slots, i);
      assert Distinct(slots, i, k) && Distinct(slots, k, i);
    }
    forall a: nat | Stray(h, a) ensures HasPage(t, a) {
      assert Stray(headers, a);
      var i: nat :| PageAt(slots, i, a);
      assert PageAt(t, i, a);
    }
  }

  ghost function Appended(headers: map<nat, Header>, slots: seq<Slot>, slot: Slot): map<nat, Header>
    requires slots != [] ==> slots[|slots| - 1].addr in headers
  {
    if slots == [] then headers[slot.addr := Header(0, 0, slot.isUsed, slot.page)]
    else
      var prev := slots[|slots| - 1].addr;
      headers[slot.addr := Header(0, prev, slot.isUsed, slot.page)][prev := headers[prev].(next := slot.addr)]
  }

  // Linking a new page behind the last one.
  lemma AppendLinked(headers: map<nat, Header>, slots: seq<Slot>, slot: Slot)
    requires Linked(headers, slots) && AllDistinct(slots + [slot])
    ensures slots != [] ==> slots[|slots| - 1].addr in headers
    ensures Linked(Appended(headers, slots, slot), slots + [slot])
  {
    if slots != [] {
      assert NodeAt(headers, slots, |slots| - 1);
    }
    var h, t := Appended(headers, slots, slot), slots + [slot];
    forall i: nat ensures NodeAt(h, t, i) {
      assert NodeAt(headers, slots, i);
      assert Distinct(t, i, |slots|);
      if |slots| > 0 {
        assert Distinct(t, |slots| - 1, |slots|) && Distinct(t, i, |slots| - 1);
        assert NodeAt(headers, slots, |slots| - 1);
      }
    }
    forall a: nat | Stray(h, a) ensures HasPage(t, a) {
      if a == slot.addr {
        assert PageAt(t, |slots|, a);
      } else {
        assert Stray(headers, a);
        var i: nat :| PageAt(slots, i, a);
        assert PageAt(t, i, a);
      }
    }
  }

  // The page that gets a successor has a header of its own.
  lemma LastLinked(headers: map<nat, Header>, slots: seq<Slot>, slot: Slot)
    requires Linked(headers, slots) && AllDistinct(slots + [slot])
    ensures slots != [] ==>
      var last := slots[|slots| - 1].addr; last in headers && last != slot.addr
  {
    if slots != [] {
      assert NodeAt(headers, slots, |slots| - 1);
      assert Distinct(slots + [slot], |slots| - 1, |slots|);
      assert (slots + [slot])[|slots| - 1] == slots[|slots| - 1];
    }
  }

  ghost function Unlinked(headers: map<nat, Header>, a: nat): map<nat, Header>
    requires a in headers
  {
    var next, prev := headers[a].next, headers[a].prev;
    var h1 := if prev != 0 && prev in headers then headers[prev := headers[prev].(next := next)] else headers;
    var h2 := if next != 0 && next in h1 then h1[next := h1[next].(prev := prev)] else h1;
    h2 - {a}
  }

  // Unlinking page k and forgetting its header.
  lemma RemoveLinked(headers: map<nat, Header>, slots: seq<Slot>, k: nat)
    requires Linked(headers, slots) && AllDistinct(slots) && k < |slots|
    requires forall i :: 0 <= i < |slots| ==> slots[i].addr > 0
    ensures slots[k].addr in headers
    ensures k > 0 ==> slots[k - 1].addr in headers
    ensures k + 1 < |slots| ==> slots[k + 1].addr in headers
    ensures Linked(Unlinked(headers, slots[k].addr), slots[..k] + slots[k + 1..])
  {
    assert NodeAt(headers, slots, k);
    if k > 0 {
      assert NodeAt(headers, slots, k - 1) && Distinct(slots, k - 1, k) && Distinct(slots, k - 1, k + 1);
    }
    if k + 1 < |slots| {
      assert NodeAt(headers, slots, k + 1) && Distinct(slots, k, k + 1);
    }
    var h, t := Unlinked(headers, slots[k].addr), slots[..k] + slots[k + 1..];
    forall i: nat ensures NodeAt(h, t, i) {
      if i < |t| {
        var j := if i < k then i else i + 1;
        assert t[i] == slots[j];
        assert NodeAt(headers, slots, j);
        assert Distinct(slots, j, k) && Distinct(slots, k, j);
        assert k > 0 ==> Distinct(slots, j, k - 1) && Distinct(slots, k - 1, j);
        assert Distinct(slots, j, k + 1) && Distinct(slots, k + 1, j);
      }
    }
    forall a: nat | Stray(h, a) ensures HasPage(t, a) {
      assert Stray(headers, a);
      var i: nat :| PageAt(slots, i, a);
      assert PageAt(t, if i < k then i else i - 1, a);
    }
  }

  // ---- Bytes ----

  ghost predicate PageByte(s: Seg, i: nat, x: nat) {
    i < |s.slots| && InPage(s.slots[i], s.cfg.pageSize, x)
  }

  // All bytes of the segment's pages.
  ghost function Bytes(s: Seg): set<nat> {
    set i, x | 0 <= i < |s.slots| && s.slots[i].addr <= x < s.slots[i].addr + s.cfg.pageSize && PageByte(s, i, x) :: x
  }

  lemma BytesMember(s: Seg, x: nat)
    ensures x in Bytes(s) <==> exists i: nat :: PageByte(s, i, x)
  {
    if i: nat :| PageByte(s, i, x) {
      assert x in Bytes(s);
    }
  }

  lemma SameBytes(s: Seg, t: Seg)
    requires SamePages(s, t)
    ensures Bytes(s) == Bytes(t)
  {
    forall x ensures x in Bytes(s) <==> x in Bytes(t) {
      BytesMember(s, x);
      BytesMember(t, x);
      forall i: nat ensures PageByte(s, i, x) <==> PageByte(t, i, x) {
      }
    }
  }

  lemma PageBytes(s: Seg, k: nat)
    requires k < |s.slots|
    ensures Range(s.slots[k].addr, s.cfg.pageSize) <= Bytes(s)
  {
    forall x | x in Range(s.slots[k].addr, s.cfg.pageSize) ensures x in Bytes(s) {
      assert PageByte(s, k, x);
      BytesMember(s, x);
    }
  }

  lemma RemovedBytes(s: Seg, k: nat)
    requires Inv(s) && k < |s.slots|
    ensures Bytes(RemovePage(s, k)) == Bytes(s) - Range(s.slots[k].addr, s.cfg.pageSize)
  {
    var t := RemovePage(s, k);
    forall x ensures x in Bytes(t) <==> x in Bytes(s) - Range(s.slots[k].addr, s.cfg.pageSize) {
      BytesMember(s, x);
      BytesMember(t, x);
      if i: nat :| PageByte(t, i, x) {
        var j := if i < k then i else i + 1;
        assert PageByte(s, j, x);
        assert SlotsApart(s, j, k) && SlotsApart(s, k, j);
      }
      if x !in Range(s.slots[k].addr, s.cfg.pageSize) {
        if i: nat :| PageByte(s, i, x) {
          assert PageByte(t, if i < k then i else i - 1, x);
        }
      }
    }
  }

  lemma GrownBytes(s: Seg, buffer: nat, n: nat)
    requires Inv(s) && GoodBuffer(s, buffer, n)
    ensures Bytes(Grow(s, buffer, n)) == Bytes(s) + Range(buffer, n * s.cfg.pageSize)
  {
    var t := Grow(s, buffer, n);
    GrowContract(s, buffer, n);
    forall x ensures x in Bytes(t) <==> x in Bytes(s) + Range(buffer, n * s.cfg.pageSize) {
      BytesMember(s, x);
      BytesMember(t, x);
      if i: nat :| PageByte(t, i, x) {
        if i >= |s.slots| {
          PageInBuffer(buffer, n, s.cfg.pageSize, i - |s.slots|);
        } else {
          assert PageByte(s, i, x);
        }
      }
      if i: nat :| PageByte(s, i, x) {
        assert PageByte(t, i, x);
      }
      if x in Range(buffer, n * s.cfg.pageSize) {
        var j := PageOfByte(buffer, n, s.cfg.pageSize, x);
        assert PageByte(t, |s.slots| + j, x);
      }
    }
  }

  // An unbounded segment's memory after an allocation is what it had, with the new pages if it grew.
  lemma UnboundedBytes(s: Seg, size: nat, buffer: nat)
    requires Inv(s) && AllUsable(s) && !DividesByZero(s, size)
    requires buffer != 0 ==> Countable(s.cfg, size) && GoodBuffer(s, buffer, DesiredPages(s.cfg, |s.slots|, size))
    ensures var t := AllocateUnbounded(s, size, buffer).0;
      Bytes(t) == Bytes(s)
      || (buffer != 0 && Bytes(t) == Bytes(s) + Range(buffer, DesiredPages(s.cfg, |s.slots|, size) * s.cfg.pageSize))
  {
    TryAllocateContract(s, size);
    SameBytes(s, TryAllocate(s, size).0);
    if buffer != 0 {
      var n := DesiredPages(s.cfg, |s.slots|, size);
      GrownBytes(s, buffer, n);
      SameBytes(Grow(s, buffer, n), Extend(s, size, buffer).0);
    }
  }

  lemma PageOfByte(buffer: nat, n: nat, pageSize: nat, x: nat) returns (j: nat)
    requires pageSize > 0 && buffer <= x < buffer + n * pageSize
    ensures j < n && buffer + j * pageSize <= x < buffer + j * pageSize + pageSize
  {
    j := 0;
    while x >= buffer + j * pageSize + pageSize
      invariant j < n && buffer + j * pageSize <= x
      decreases n - j
    {
      assert (j + 1) * pageSize == j * pageSize + pageSize;
      ProductMonotone(n, j + 1, pageSize);
      j := j + 1;
    }
  }

  // A region the arena just handed out overlaps no page whose bytes were owned before.
  lemma RegionApart(s: Seg, owned: set<nat>, buffer: nat, n: nat)
    requires Inv(s) && Bytes(s) <= owned && Range(buffer, n * s.cfg.pageSize) !! owned
    requires 0 < buffer && buffer % 4096 == 0 && buffer + n * s.cfg.pageSize <= WORD_LIMIT && n >= 1
    ensures GoodBuffer(s, buffer, n)
  {
    ProductMonotone(1, n, s.cfg.pageSize);
    forall i | 0 <= i < |s.slots| ensures BufferApart(s, buffer, n, i) {
      PageBytes(s, i);
      var a := s.slots[i].addr;
      var x := if a < buffer then buffer else a;
      assert x in Range(a, s.cfg.pageSize) ==> x in owned;
    }
  }
}
