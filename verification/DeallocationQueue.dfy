// The deallocation queue: linked pages of pointers that together behave as one stack.
module DeallocationQueue {

  const PAGE_CAPACITY: nat := 8190     // (65536 - 2 * 8) / 8

  class PointerPage {
    var next: PointerPage?
    var prev: PointerPage?
    const pointers: array<nat>

    constructor ()
      ensures next == null && prev == null && fresh(pointers) && pointers.Length == PAGE_CAPACITY
    {
      next, prev := null, null;
      pointers := new nat[PAGE_CAPACITY](_ => 0);
    }
  }

  class Queue {
    var head: PointerPage?
    var active: PointerPage?      // m_active_page
    var used: nat                 // m_active_page_used_count

    ghost var stack: seq<nat>               // all pointers in the queue, next one to pop last
    ghost var pages: seq<PointerPage>       // the pages that can be reached from head
    ghost var k: nat                        // position of the active page
    ghost var Repr: set<object>

    // Page i is linked to its neighbours and shares its memory with no other page.
    ghost predicate PageAt(i: nat)
      reads this, Repr
    {
      i < |pages| ==>
        && pages[i] in Repr && pages[i].pointers in Repr && pages[i].pointers.Length == PAGE_CAPACITY
        && pages[i].next == (if i + 1 < |pages| then pages[i + 1] else null)
        && pages[i].prev == (if i > 0 then pages[i - 1] else null)
    }

    static ghost predicate PagesApart(pages: seq<PointerPage>, i: nat, j: nat) {
      i < |pages| && j < |pages| && i != j ==> pages[i] != pages[j] && pages[i].pointers != pages[j].pointers
    }

    // Cell j of page i holds its element of the stack.
    ghost predicate CellAt(i: nat, j: nat)
      reads this, Repr
    {
      i < |pages| && pages[i] in Repr && pages[i].pointers in Repr && j < pages[i].pointers.Length
      && i * PAGE_CAPACITY + j < |stack|
      ==> pages[i].pointers[j] == stack[i * PAGE_CAPACITY + j]
    }

    ghost predicate Valid()
      reads this, Repr
    {
      && this in Repr
      && k < |pages| && head == pages[0] && active == pages[k]
      && used <= PAGE_CAPACITY && |stack| == k * PAGE_CAPACITY + used
      && (forall i: nat :: PageAt(i))
      && (forall i: nat, j: nat :: PagesApart(pages, i, j))
      && (forall i: nat, j: nat :: CellAt(i, j))
    }

    constructor ()
      ensures head == null && active == null && used == 0
    {
      head, active, used := null, null, 0;
      stack, pages, k, Repr := [], [], 0, {};
    }

    // All pages are built, but the linking loop never moves on from the head, so only the head can be
    // reached afterwards.
    method Create(pageCount: nat) returns (ok: bool)
      requires head == null && used == 0
      modifies this
      ensures ok <==> pageCount > 0
      ensures ok ==> Valid() && stack == [] && |pages| == 1 && fresh(Repr - {this})
      ensures !ok ==> unchanged(this)
    {
      if pageCount == 0 {
        return false;
      }
      var buffer := new PointerPage?[pageCount];
      var first := new PointerPage();
      buffer[0] := first;
      var n := 1;
      while n < pageCount
        invariant 1 <= n <= pageCount
        invariant buffer[0] == first && first.next == null && first.prev == null
        invariant forall i :: 1 <= i < n ==> buffer[i] != null && buffer[i] != first && fresh(buffer[i])
        modifies buffer
      {
        buffer[n] := new PointerPage();
        n := n + 1;
      }
      var iter := first;
      for i := 0 to pageCount
        invariant iter == first && first.prev == null && used == 0
        invariant i == pageCount ==> first.next == null
        invariant forall i :: 1 <= i < pageCount ==> buffer[i] != null && buffer[i] != first && fresh(buffer[i])
      {
        if i + 1 < pageCount {
          var next := buffer[i + 1];
          iter.next := next;
          next.prev := iter;
        } else {
          iter.next := null;
        }
      }
      head, active := first, first;
      stack, pages, k, Repr := [], [first], 0, {this, first, first.pointers};
      return true;
    }

    // Start using the page after the full one, a new page if there is none.
    method NextPage()
      requires Valid() && used == PAGE_CAPACITY
      modifies this, active
      ensures Valid() && stack == old(stack) && used == 0 && fresh(Repr - old(Repr))
    {
      assert PageAt(k);
      if active.next == null {
        AddPage();
      }
      Advance();
    }

    method Advance()
      requires Valid() && used == PAGE_CAPACITY && active.next != null
      modifies this`active, this`used, this`k
      ensures Valid() && used == 0
    {
      assert PageAt(k) && PageAt(k + 1);
      active := active.next;
      used := 0;
      k := k + 1;
      forall i: nat ensures PageAt(i) {
        assert old(PageAt(i));
      }
      forall i: nat, j: nat ensures CellAt(i, j) {
        assert old(CellAt(i, j));
      }
    }

    // Link a new page behind the last one.
    method AddPage()
      requires Valid() && active.next == null
      modifies this`pages, this`Repr, active
      ensures Valid() && fresh(Repr - old(Repr)) && active.next != null
    {
      assert PageAt(k);
      var newPage := new PointerPage();
      active.next := newPage;
      newPage.prev := active;
      pages := pages + [newPage];
      Repr := Repr + {newPage, newPage.pointers};
      forall i: nat ensures PageAt(i) {
        assert old(PageAt(i)) && PagesApart(old(pages), i, k);
      }
      forall i: nat, j: nat ensures PagesApart(pages, i, j) {
        assert PagesApart(old(pages), i, j) && old(PageAt(i)) && old(PageAt(j));
      }
      forall i: nat, j: nat ensures CellAt(i, j) {
        assert old(CellAt(i, j)) && old(PageAt(i));
      }
      assert PageAt(k);
    }

    method Push(pointer: nat)
      requires Valid()
      modifies Repr
      ensures Valid() && stack == old(stack) + [pointer] && fresh(Repr - old(Repr))
    {
      if used == PAGE_CAPACITY {
        assert PageAt(k);
        NextPage();
      }
      assert PageAt(k);
      Store(pointer);
    }

    method Store(pointer: nat)
      requires Valid() && used < PAGE_CAPACITY
      modifies this`used, this`stack, active.pointers
      ensures Valid() && stack == old(stack) + [pointer]
    {
      assert PageAt(k);
      active.pointers[used] := pointer;
      used := used + 1;
      stack := stack + [pointer];
      forall i: nat ensures PageAt(i) {
        assert old(PageAt(i));
      }
      forall i: nat, j: nat ensures CellAt(i, j) {
        assert old(CellAt(i, j)) && old(PageAt(i)) && PagesApart(pages, i, k);
      }
    }

    // 0 exactly when the queue is empty, as long as only non-null pointers were pushed.
    method Pop() returns (pointer: nat)
      requires Valid()
      modifies this
      ensures Valid() && Repr == old(Repr)
      ensures old(stack) == [] ==> pointer == 0 && stack == []
      ensures old(stack) != [] ==> old(stack) == stack + [pointer]
      ensures 0 !in old(stack) ==> (pointer == 0 <==> old(stack) == [])
    {
      assert PagesApart(pages, 0, k) && PageAt(k);
      if used == 0 {
        if head == active {
          return 0;
        }
        assert PageAt(k - 1);
        active := active.prev;
        used := PAGE_CAPACITY;
        k := k - 1;
      }
      ghost var i, j := k, used - 1;
      assert old(CellAt(i, j)) && old(PageAt(i));
      pointer := active.pointers[used - 1];
      used := used - 1;
      stack := stack[..|stack| - 1];
      forall i: nat ensures PageAt(i) {
        assert old(PageAt(i));
      }
      forall i: nat, j: nat ensures CellAt(i, j) {
        assert old(CellAt(i, j));
      }
    }
  }
}
