// The fixed-size page as it is stored: the free list runs through the first word of each free chunk.
module FixedPage {
  import opened Sequences
  import opened Words
  import opened FixedPageSpec

  // List element i is a chunk whose first word points at element i + 1.
  ghost predicate LinkAt(m: seq<Byte>, lo: nat, list: seq<nat>, i: nat) {
    i < |list| ==>
      lo <= list[i] && list[i] + 8 <= lo + |m| && Word(m, list[i] - lo) == ElementOr0(list, i + 1)
  }

  ghost predicate Linked(m: seq<Byte>, lo: nat, head: nat, list: seq<nat>) {
    head == ElementOr0(list, 0) && forall i: nat :: LinkAt(m, lo, list, i)
  }

  ghost predicate Represents(m: seq<Byte>, head: nat, p: Fixed) {
    |m| == p.hi - p.lo && Linked(m, p.lo, head, p.free)
  }

  // No byte of a live chunk other than `except` changes.
  ghost predicate LiveKept(m: seq<Byte>, m': seq<Byte>, p: Fixed, except: nat) {
    |m| == |m'| && forall a :: a in p.live && a != except ==> SameChunk(m, m', p, a)
  }

  ghost predicate SameChunk(m: seq<Byte>, m': seq<Byte>, p: Fixed, a: nat)
    requires |m| == |m'|
  {
    forall x :: 0 <= x < |m| && a <= p.lo + x < a + p.chunk ==> m'[x] == m[x]
  }

  lemma WordKept(m: seq<Byte>, m': seq<Byte>, q: nat, p: nat)
    requires SameOutside(m, m', q, 8) && p + 8 <= |m| && (p + 8 <= q || q + 8 <= p)
    ensures Word(m', p) == Word(m, p)
  {
    DecodeSame(m, m', p, p + 8);
  }

  // Writing the first word of a chunk that is on no list puts it in front.
  lemma PushLinks(m: seq<Byte>, head: nat, m': seq<Byte>, lo: nat, list: seq<nat>, node: nat)
    requires Linked(m, lo, head, list) && lo <= node && node + 8 <= lo + |m|
    requires forall i :: 0 <= i < |list| ==> node + 8 <= list[i] || list[i] + 8 <= node
    requires SameOutside(m, m', node - lo, 8) && Word(m', node - lo) == head
    ensures Linked(m', lo, node, [node] + list)
  {
    forall i: nat ensures LinkAt(m', lo, [node] + list, i) {
      if 0 < i <= |list| {
        assert LinkAt(m, lo, list, i - 1);
        WordKept(m, m', node - lo, list[i - 1] - lo);
      }
    }
  }

  lemma PopLinks(m: seq<Byte>, lo: nat, list: seq<nat>)
    requires list != [] && Linked(m, lo, list[0], list)
    ensures Linked(m, lo, ElementOr0(list, 1), list[1..])
    ensures LinkAt(m, lo, list, 0)
  {
    forall i: nat ensures LinkAt(m, lo, list[1..], i) {
      assert LinkAt(m, lo, list, i + 1);
    }
  }

  lemma PushKeepsLive(m: seq<Byte>, m': seq<Byte>, p: Fixed, node: nat)
    requires Inv(p) && |m| == p.hi - p.lo && node in p.live && SameOutside(m, m', node - p.lo, 8) && p.lo <= node
    ensures LiveKept(m, m', p, node)
  {
    forall a | a in p.live && a != node ensures SameChunk(m, m', p, a) {
      ChunksDisjoint(p, node, a);
    }
  }

  class LogicalPage {
    var start: nat               // m_logical_page_start_address
    var size: nat                // m_logical_page_size
    var sizeClass: nat           // m_size_class
    var head: nat                // m_head, 0 for an empty list
    var used: int                // m_used_size
    var memory: array<Byte>      // memory[x] is the byte at start + x

    ghost var page: Fixed

    ghost predicate Valid()
      reads this, memory
    {
      && page.lo == start && page.hi == start + size && page.chunk == sizeClass && page.used == used
      && Inv(page)
      && Represents(memory[..], head, page)
    }

    constructor ()
      ensures fresh(memory)
    {
      start, size, sizeClass, head, used := 0, 0, 0, 0, 0;
      memory := new Byte[0];
      page := Fixed(0, 0, 0, 0, [], {}, 0);
    }

    static predicate Acceptable(address: nat, length: nat, sizeClass: nat) {
      address != 0 && sizeClass <= length && MIN_CHUNK <= sizeClass
      && (address % 4096 == 0 || (address + 4096 - 64) % 4096 == 0)
    }

    method Create(address: nat, buffer: array<Byte>, sizeClass: nat) returns (ok: bool)
      requires address + buffer.Length <= WORD_LIMIT
      modifies this, buffer
      ensures ok <==> Acceptable(address, buffer.Length, sizeClass)
      ensures ok ==> Valid() && memory == buffer && page == Fresh(address, address + buffer.Length, sizeClass)
      ensures !ok ==> unchanged(this) && unchanged(buffer)
    {
      if address == 0 || buffer.Length < sizeClass || sizeClass < MIN_CHUNK {
        return false;
      }
      if address % 4096 != 0 && (address + 4096 - 64) % 4096 != 0 {
        return false;
      }
      start, size, head, used, memory := address, buffer.Length, 0, 0, buffer;
      this.sizeClass := sizeClass;
      page := Fresh(start, start + size, sizeClass);
      FreshInv(start, start + size, sizeClass);
      Grow();
      return true;
    }

    // Put every chunk of the buffer on the list, first chunk deepest.
    method Grow()
      requires 0 < start && start + size <= WORD_LIMIT && MIN_CHUNK <= sizeClass && memory.Length == size && head == 0
      modifies this`head, memory
      ensures Linked(memory[..], start, head, Grown(start, sizeClass, size / sizeClass))
    {
      var chunkCount := size / sizeClass;
      var i := 0;
      while i < chunkCount
        invariant 0 <= i <= chunkCount
        invariant Linked(memory[..], start, head, Grown(start, sizeClass, i))
      {
        GrownElements(start, sizeClass, i);
        ghost var p := Fresh(start, start + size, sizeClass);
        FreshInv(start, start + size, sizeClass);
        ChunkInside(p, Chunk(start, sizeClass, i));
        forall j: nat | j < i ensures Chunk(start, sizeClass, j) + 8 <= Chunk(start, sizeClass, i) {
          ChunksApart(start, sizeClass, j, i);
        }
        Push(start + i * sizeClass, Grown(start, sizeClass, i));
        i := i + 1;
      }
    }

    method Push(node: nat, ghost list: seq<nat>)
      requires Linked(memory[..], start, head, list) && head < WORD_LIMIT
      requires start <= node && node + 8 <= start + memory.Length
      requires forall i :: 0 <= i < |list| ==> node + 8 <= list[i] || list[i] + 8 <= node
      modifies this`head, memory
      ensures Linked(memory[..], start, head, [node] + list) && head == node
      ensures SameOutside(old(memory[..]), memory[..], node - start, 8)
    {
      ghost var m := memory[..];
      WriteWord(memory, node - start, head);
      PushLinks(m, head, memory[..], start, list, node);
      head := node;
    }

    method Pop(ghost list: seq<nat>) returns (top: nat)
      requires Linked(memory[..], start, head, list) && forall i :: 0 <= i < |list| ==> list[i] > 0
      modifies this`head
      ensures top == ElementOr0(list, 0)
      ensures Linked(memory[..], start, head, if list == [] then [] else list[1..])
    {
      if head == 0 {
        return 0;
      }
      top := head;
      PopLinks(memory[..], start, list);
      head := ReadWord(memory, top - start);
    }

    method Allocate(size: nat) returns (ptr: nat)
      requires Valid()
      modifies this
      ensures Valid() && memory == old(memory) && start == old(start) && this.size == old(this.size)
      ensures page == FixedPageSpec.Allocate(old(page)).0 && ptr == FixedPageSpec.Allocate(old(page)).1
      ensures memory[..] == old(memory[..])
    {
      AllocateKeepsInv(page);
      forall i | 0 <= i < |page.free| ensures page.free[i] > 0 {
        assert LinkAt(memory[..], start, page.free, i);
      }
      ptr := Pop(page.free);
      if ptr == 0 {
        return 0;
      }
      used := used + sizeClass;
      page := FixedPageSpec.Allocate(page).0;
    }

    method Deallocate(ptr: nat)
      requires Valid() && (Owns(page, ptr) ==> ptr in page.live)
      modifies this, memory
      ensures Valid() && memory == old(memory) && start == old(start) && size == old(size)
      ensures page == FixedPageSpec.Deallocate(old(page), ptr)
      ensures LiveKept(old(memory[..]), memory[..], old(page), ptr)
    {
      if !(start <= ptr < start + size) {
        return;
      }
      ghost var m, p := memory[..], page;
      DeallocateKeepsInv(p, ptr);
      ChunkInside(p, ptr);
      assert LinkAt(m, start, p.free, 0);
      forall i | 0 <= i < |p.free| ensures ptr + 8 <= p.free[i] || p.free[i] + 8 <= ptr {
        assert p.free[i] in p.free;
        ChunksDisjoint(p, ptr, p.free[i]);
      }
      used := used - sizeClass;
      Push(ptr, page.free);
      page := FixedPageSpec.Deallocate(page, ptr);
      PushKeepsLive(m, memory[..], p, ptr);
    }
  }
}
