// The any-size page as it is stored: bytes, with the free list threaded through the free blocks and
// a header in front of every payload.
module AnySizePage {
  import opened Sequences
  import opened Words
  import opened Tiling
  import opened AnySizeSpec
  import opened AnySizeTheorems

  // ---- What the bytes say ----

  ghost predicate HoldsNode(m: seq<Byte>, lo: nat, a: nat) {
    lo <= a && a + NODE_SIZE <= lo + |m|
  }

  // First word of a node: the next pointer of a free node, the padding of a header.
  ghost function FirstPart(m: seq<Byte>, lo: nat, a: nat): nat
    requires HoldsNode(m, lo, a)
  {
    Word(m, a - lo)
  }

  // Second word of a node: the block size.
  ghost function SecondPart(m: seq<Byte>, lo: nat, a: nat): nat
    requires HoldsNode(m, lo, a)
  {
    Word(m, a + 8 - lo)
  }

  ghost function PrevOf(s: seq<nat>, k: nat): nat
    requires k <= |s|
  {
    if k == 0 then 0 else s[k - 1]
  }

  // Every node lies in memory and no two of them overlap.
  ghost predicate NodesApart(lo: nat, hi: nat, s: seq<nat>) {
    && (forall i :: 0 <= i < |s| ==> 0 < s[i] && lo <= s[i] && s[i] + NODE_SIZE <= hi)
    && (forall i: nat, j: nat :: NodeClear(s, i, j))
  }

  ghost predicate NodeClear(s: seq<nat>, i: nat, j: nat) {
    i < j < |s| ==> s[i] + NODE_SIZE <= s[j] || s[j] + NODE_SIZE <= s[i]
  }

  ghost predicate Outside(s: seq<nat>, node: nat) {
    forall i :: 0 <= i < |s| ==> s[i] + NODE_SIZE <= node || node + NODE_SIZE <= s[i]
  }

  ghost predicate LinkAt(m: seq<Byte>, lo: nat, list: seq<nat>, i: int) {
    0 <= i < |list| ==>
      list[i] > 0 && HoldsNode(m, lo, list[i]) && FirstPart(m, lo, list[i]) == ElementOr0(list, i + 1)
  }

  ghost predicate Linked(m: seq<Byte>, lo: nat, head: nat, list: seq<nat>) {
    head == ElementOr0(list, 0) && forall i: int :: LinkAt(m, lo, list, i)
  }

  // Every free block but `skip` records its size.
  ghost predicate Sized(m: seq<Byte>, p: Page, skip: nat) {
    forall i :: 0 <= i < |p.free| && p.free[i] != skip ==>
      p.free[i] in p.sizes && HoldsNode(m, p.lo, p.free[i]) && SecondPart(m, p.lo, p.free[i]) == p.sizes[p.free[i]]
  }

  ghost predicate HeaderAt(m: seq<Byte>, p: Page, b: nat) {
    && b in p.sizes && HoldsNode(m, p.lo, b + Padding(b))
    && FirstPart(m, p.lo, b + Padding(b)) == Padding(b)
    && SecondPart(m, p.lo, b + Padding(b)) == p.sizes[b]
  }

  // Every live block but `skip` has its padding and size in the header before its payload.
  ghost predicate Headed(m: seq<Byte>, p: Page, skip: nat) {
    forall b :: b in p.live && b != skip ==> HeaderAt(m, p, b)
  }

  // The bytes say what the page value says, except perhaps about block `skip` (0 for no exception).
  ghost predicate Represents(m: seq<Byte>, head: nat, p: Page, skip: nat) {
    && |m| == p.hi - p.lo
    && Linked(m, p.lo, head, p.free)
    && Sized(m, p, skip)
    && Headed(m, p, skip)
  }

  // Between m and m' only bytes of [a, a + n) and of [c, c + k) may differ.
  ghost predicate OnlyWrites(m: seq<Byte>, m': seq<Byte>, lo: nat, a: nat, n: nat, c: nat, k: nat) {
    && |m| == |m'|
    && (forall x :: 0 <= x < |m| && (lo + x < a || a + n <= lo + x) && (lo + x < c || c + k <= lo + x) ==>
      m'[x] == m[x])
  }

  lemma WordKept(m: seq<Byte>, m': seq<Byte>, lo: nat, a: nat, n: nat, c: nat, k: nat, q: nat)
    requires OnlyWrites(m, m', lo, a, n, c, k)
    requires q + 8 <= |m|
    requires lo + q + 8 <= a || a + n <= lo + q
    requires lo + q + 8 <= c || c + k <= lo + q
    ensures Word(m', q) == Word(m, q)
  {
    DecodeSame(m, m', q, q + 8);
  }

  // What `insert` does to the words: `node` takes over what pointed past it.
  ghost predicate Inserted(m: seq<Byte>, head: nat, m': seq<Byte>, head': nat, lo: nat, prev: nat, node: nat) {
    && HoldsNode(m, lo, node) && HoldsNode(m', lo, node)
    && if prev == 0 then
         head' == node && FirstPart(m', lo, node) == head && OnlyWrites(m, m', lo, node, 8, 0, 0)
       else
         && HoldsNode(m, lo, prev) && HoldsNode(m', lo, prev)
         && head' == head
         && FirstPart(m', lo, node) == FirstPart(m, lo, prev) && FirstPart(m', lo, prev) == node
         && OnlyWrites(m, m', lo, node, 8, prev, 8)
  }

  // What `remove` does: whatever pointed at `node` now points past it.
  ghost predicate Removed(m: seq<Byte>, head: nat, m': seq<Byte>, head': nat, lo: nat, prev: nat, node: nat) {
    && HoldsNode(m, lo, node)
    && if prev == 0 then
         head' == FirstPart(m, lo, node) && m' == m
       else
         && HoldsNode(m', lo, prev)
         && head' == head && FirstPart(m', lo, prev) == FirstPart(m, lo, node)
         && OnlyWrites(m, m', lo, prev, 8, 0, 0)
  }

  // Setting the next pointers of two nodes, one after the other.
  lemma TwoLinks(m: seq<Byte>, m1: seq<Byte>, m2: seq<Byte>, lo: nat, a: nat, c: nat)
    requires HoldsNode(m, lo, a) && HoldsNode(m, lo, c) && (a + NODE_SIZE <= c || c + NODE_SIZE <= a)
    requires OnlyWrites(m, m1, lo, a, 8, 0, 0) && OnlyWrites(m1, m2, lo, c, 8, 0, 0)
    ensures OnlyWrites(m, m2, lo, a, 8, c, 8) && OnlyWrites(m, m2, lo, c, 8, a, 8)
    ensures FirstPart(m2, lo, a) == FirstPart(m1, lo, a)
  {
    WordKept(m1, m2, lo, c, 8, 0, 0, a - lo);
  }

  // Insertion behind list element k - 1 (at the head for k == 0) puts the node at position k.
  lemma InsertLinks(m: seq<Byte>, head: nat, m': seq<Byte>, head': nat, lo: nat, list: seq<nat>, k: nat, node: nat)
    requires Linked(m, lo, head, list) && NodesApart(lo, lo + |m|, list) && Outside(list, node)
    requires k <= |list| && 0 < node
    requires Inserted(m, head, m', head', lo, PrevOf(list, k), node)
    ensures Linked(m', lo, head', list[..k] + [node] + list[k..])
  {
    var r := list[..k] + [node] + list[k..];
    assert LinkAt(m, lo, list, k - 1) && LinkAt(m, lo, list, 0);
    forall i: int | 0 <= i < |r| ensures LinkAt(m', lo, r, i) {
      InsertPlaces(list, k, node, i);
      if i != k {
        InsertKeepsLink(m, head, m', head', lo, list, k, node, if i < k then i else i - 1);
      }
    }
  }

  // What the first word of an old list element says once the node is in.
  lemma InsertKeepsLink(m: seq<Byte>, head: nat, m': seq<Byte>, head': nat, lo: nat, list: seq<nat>, k: nat, node: nat,
      j: nat)
    requires Linked(m, lo, head, list) && NodesApart(lo, lo + |m|, list) && Outside(list, node)
    requires k <= |list| && 0 < node && j < |list|
    requires Inserted(m, head, m', head', lo, PrevOf(list, k), node)
    ensures list[j] > 0 && HoldsNode(m', lo, list[j])
    ensures FirstPart(m', lo, list[j]) == if j + 1 == k then node else ElementOr0(list, j + 1)
  {
    var prev := PrevOf(list, k);
    assert LinkAt(m, lo, list, j) && LinkAt(m, lo, list, k - 1);
    if j + 1 != k {
      assert k > 0 ==> NodeClear(list, j, k - 1) && NodeClear(list, k - 1, j);
      WordKept(m, m', lo, node, 8, prev, if prev == 0 then 0 else 8, list[j] - lo);
    }
  }

  lemma RemoveLinks(m: seq<Byte>, head: nat, m': seq<Byte>, head': nat, lo: nat, list: seq<nat>, k: nat)
    requires Linked(m, lo, head, list) && NodesApart(lo, lo + |m|, list) && k < |list|
    requires Removed(m, head, m', head', lo, PrevOf(list, k), list[k])
    ensures Linked(m', lo, head', list[..k] + list[k + 1..])
  {
    var r, prev := list[..k] + list[k + 1..], PrevOf(list, k);
    assert LinkAt(m, lo, list, k) && LinkAt(m, lo, list, k - 1);
    forall i: int | 0 <= i < |r| ensures LinkAt(m', lo, r, i) {
      var j := if i < k then i else i + 1;
      RemovePlaces(list, k, i);
      assert LinkAt(m, lo, list, j);
      if j + 1 != k && prev != 0 {
        assert NodeClear(list, j, k - 1) && NodeClear(list, k - 1, j);
        WordKept(m, m', lo, prev, 8, 0, 0, list[j] - lo);
      }
    }
  }

  lemma ListApart(p: Page)
    requires Inv(p)
    ensures NodesApart(p.lo, p.hi, p.free)
    ensures forall b :: b in p.sizes && b !in p.free ==> Outside(p.free, b)
  {
    PairsDiffer(p.free);
    forall i: nat, j: nat | i < j < |p.free| ensures NodeClear(p.free, i, j) {
      assert Apart(p.sizes, p.free[i], p.free[j]) && Apart(p.sizes, p.free[j], p.free[i]);
    }
    forall b | b in p.sizes && b !in p.free ensures Outside(p.free, b) {
      forall i | 0 <= i < |p.free| ensures p.free[i] + NODE_SIZE <= b || b + NODE_SIZE <= p.free[i] {
        assert Apart(p.sizes, p.free[i], b) && Apart(p.sizes, b, p.free[i]);
      }
    }
  }

  // What one step may write: bytes of block b, and the next pointer of a free block c.
  ghost predicate StepWrites(m: seq<Byte>, m': seq<Byte>, p: Page, b: nat, s: nat, c: nat, k: nat) {
    && |m| == p.hi - p.lo
    && b in p.sizes && s <= p.sizes[b]
    && (k == c == 0 || (k == 8 && c in p.free))
    && OnlyWrites(m, m', p.lo, b, s, c, k)
  }

  lemma SizeKept(m: seq<Byte>, m': seq<Byte>, p: Page, b: nat, s: nat, c: nat, k: nat, d: nat)
    requires Inv(p) && StepWrites(m, m', p, b, s, c, k) && d in p.sizes && d != b && HoldsNode(m, p.lo, d)
    ensures SecondPart(m', p.lo, d) == SecondPart(m, p.lo, d)
  {
    assert k == 8 ==> c in p.sizes;
    assert Apart(p.sizes, d, b) && Apart(p.sizes, b, d) && Apart(p.sizes, c, d) && Apart(p.sizes, d, c);
    WordKept(m, m', p.lo, b, s, c, k, d + 8 - p.lo);
  }

  lemma HeaderKept(m: seq<Byte>, m': seq<Byte>, p: Page, b: nat, s: nat, c: nat, k: nat, d: nat)
    requires Inv(p) && StepWrites(m, m', p, b, s, c, k) && d in p.live && d != b && HeaderAt(m, p, d)
    ensures HeaderAt(m', p, d)
  {
    assert k == 8 ==> c in p.sizes && c != d;
    var h := d + Padding(d);
    assert d <= h && h + NODE_SIZE <= d + p.sizes[d];
    assert Apart(p.sizes, d, b) && Apart(p.sizes, b, d) && Apart(p.sizes, c, d) && Apart(p.sizes, d, c);
    WordKept(m, m', p.lo, b, s, c, k, h - p.lo);
    WordKept(m, m', p.lo, b, s, c, k, h + 8 - p.lo);
  }

  // Such a step disturbs no other size or header.
  lemma SizesKept(m: seq<Byte>, m': seq<Byte>, p: Page, b: nat, s: nat, c: nat, k: nat)
    requires Inv(p) && Sized(m, p, b) && Headed(m, p, b)
    requires StepWrites(m, m', p, b, s, c, k)
    ensures Sized(m', p, b) && Headed(m', p, b)
  {
    forall i | 0 <= i < |p.free| && p.free[i] != b
      ensures HoldsNode(m', p.lo, p.free[i]) && SecondPart(m', p.lo, p.free[i]) == p.sizes[p.free[i]]
    {
      SizeKept(m, m', p, b, s, c, k, p.free[i]);
    }
    forall d | d in p.live && d != b ensures HeaderAt(m', p, d) {
      HeaderKept(m, m', p, b, s, c, k, d);
    }
  }

  // Writes inside block b (from offset `from`, below its end) that miss every listed node keep the links.
  lemma LinkedKept(m: seq<Byte>, m': seq<Byte>, p: Page, head: nat, b: nat, from: nat, n: nat)
    requires Inv(p) && |m| == p.hi - p.lo && Linked(m, p.lo, head, p.free)
    requires b in p.sizes && from + n <= p.sizes[b] && (from >= 8 || b !in p.free)
    requires OnlyWrites(m, m', p.lo, b + from, n, 0, 0)
    ensures Linked(m', p.lo, head, p.free)
  {
    forall i: int ensures LinkAt(m', p.lo, p.free, i) {
      assert LinkAt(m, p.lo, p.free, i);
      if 0 <= i < |p.free| {
        var d := p.free[i];
        assert Apart(p.sizes, d, b) && Apart(p.sizes, b, d);
        WordKept(m, m', p.lo, b + from, n, 0, 0, d - p.lo);
      }
    }
  }

  lemma SplitOutside(p: Page, i: nat, total: nat)
    requires Inv(p) && i < |p.free| && NODE_SIZE <= total && total + NODE_SIZE <= p.sizes[p.free[i]]
    ensures Outside(p.free, p.free[i] + total)
  {
    forall j | 0 <= j < |p.free|
      ensures p.free[j] + NODE_SIZE <= p.free[i] + total || p.free[i] + total + NODE_SIZE <= p.free[j]
    {
      assert Apart(p.sizes, p.free[i], p.free[j]) && Apart(p.sizes, p.free[j], p.free[i]);
    }
  }

  lemma SplitSized(m: seq<Byte>, p: Page, i: nat, total: nat)
    requires Inv(p) && i < |p.free| && NODE_SIZE <= total && total + NODE_SIZE <= p.sizes[p.free[i]]
    requires Sized(m, p, p.free[i]) && Headed(m, p, p.free[i])
    requires HoldsNode(m, p.lo, p.free[i] + total)
    requires SecondPart(m, p.lo, p.free[i] + total) == p.sizes[p.free[i]] - total
    requires p.free[i] + total !in p.sizes
    ensures Sized(m, Split(p, i, total), p.free[i]) && Headed(m, Split(p, i, total), p.free[i])
  {
    var q := Split(p, i, total);
    forall j | 0 <= j < |q.free| && q.free[j] != p.free[i]
      ensures q.free[j] in q.sizes && HoldsNode(m, p.lo, q.free[j])
      ensures SecondPart(m, p.lo, q.free[j]) == q.sizes[q.free[j]]
    {
      if j != i + 1 {
        assert q.free[j] == p.free[if j <= i then j else j - 1];
      }
    }
    forall b | b in q.live && b != p.free[i] ensures HeaderAt(m, q, b) {
      assert HeaderAt(m, p, b);
    }
  }

  // No byte of a live block other than b changes.
  ghost predicate LiveKept(m: seq<Byte>, m': seq<Byte>, p: Page, b: nat) {
    |m| == |m'| && forall d :: d in p.live && d != b ==> SameBlock(m, m', p, d)
  }

  ghost predicate SameBlock(m: seq<Byte>, m': seq<Byte>, p: Page, d: nat)
    requires |m| == |m'|
  {
    d in p.sizes && forall x :: 0 <= x < |m| && d <= p.lo + x < d + p.sizes[d] ==> m'[x] == m[x]
  }

  lemma StepKeepsLive(m: seq<Byte>, m': seq<Byte>, p: Page, b: nat, s: nat, c: nat, k: nat)
    requires Inv(p) && StepWrites(m, m', p, b, s, c, k)
    ensures LiveKept(m, m', p, b)
  {
    forall d | d in p.live && d != b ensures SameBlock(m, m', p, d) {
      assert k == 8 ==> c in p.sizes && c != d;
      assert Apart(p.sizes, d, b) && Apart(p.sizes, b, d) && Apart(p.sizes, c, d) && Apart(p.sizes, d, c);
    }
  }

  lemma LiveKeptTwice(m: seq<Byte>, m1: seq<Byte>, m2: seq<Byte>, p: Page, q: Page, b: nat)
    requires LiveKept(m, m1, p, b) && LiveKept(m1, m2, q, b) && p.lo == q.lo
    requires forall d :: d in p.live && d != b ==>
      d in q.live && d in p.sizes && d in q.sizes && p.sizes[d] == q.sizes[d]
    ensures LiveKept(m, m2, p, b)
  {
    forall d | d in p.live && d != b ensures SameBlock(m, m2, p, d) {
      assert SameBlock(m, m1, p, d) && SameBlock(m1, m2, q, d);
    }
  }

  lemma AllocateKeepsLive(m: seq<Byte>, m1: seq<Byte>, m2: seq<Byte>, p: Page, i: nat, total: nat)
    requires Inv(p) && i < |p.free|
    requires Padding(p.free[i]) + 2 * NODE_SIZE <= total <= p.sizes[p.free[i]]
    requires LiveKept(m, m1, p, p.free[i]) && LiveKept(m1, m2, AllocateAt(p, i, total), p.free[i])
    ensures LiveKept(m, m2, p, 0)
  {
    AllocateAtInv(p, i, total);
    LiveKeptTwice(m, m1, m2, p, AllocateAt(p, i, total), p.free[i]);
  }

  // The first node: its size, then its (empty) link, at the start of the buffer.
  lemma FreshRepresented(m: seq<Byte>, m': seq<Byte>, lo: nat, size: nat)
    requires |m| == size && 0 < lo && NODE_SIZE < size
    requires SecondPart(m, lo, lo) == size && Inserted(m, 0, m', lo, lo, 0, lo)
    ensures Represents(m', lo, Fresh(lo, lo + size), 0)
  {
    WordKept(m, m', lo, lo, 8, 0, 0, lo + 8 - lo);
  }

  // The tail's size word, then its links: what the bytes say once a split is on record.
  lemma SplitRepresented(m: seq<Byte>, head: nat, m1: seq<Byte>, m2: seq<Byte>, head': nat, p: Page, i: nat, total: nat)
    requires Inv(p) && i < |p.free| && NODE_SIZE <= total && total + NODE_SIZE <= p.sizes[p.free[i]]
    requires Represents(m, head, p, 0)
    requires OnlyWrites(m, m1, p.lo, p.free[i] + total + 8, 8, 0, 0)
    requires HoldsNode(m1, p.lo, p.free[i] + total)
    requires SecondPart(m1, p.lo, p.free[i] + total) == p.sizes[p.free[i]] - total
    requires Inserted(m1, head, m2, head', p.lo, p.free[i], p.free[i] + total)
    ensures Represents(m2, head', Split(p, i, total), p.free[i])
    ensures LiveKept(m, m2, p, p.free[i])
  {
    SplitLinked(m, head, m1, m2, head', p, i, total);
    var b := p.free[i];
    WordKept(m1, m2, p.lo, b + total, 8, b, 8, b + total + 8 - p.lo);
    assert OnlyWrites(m, m2, p.lo, b, p.sizes[b], 0, 0);
    SizesKept(m, m2, p, b, p.sizes[b], 0, 0);
    SplitTiles(p.sizes, p.lo, p.hi, b, total);
    SplitSized(m2, p, i, total);
    StepKeepsLive(m, m2, p, b, p.sizes[b], 0, 0);
  }

  lemma SplitLinked(m: seq<Byte>, head: nat, m1: seq<Byte>, m2: seq<Byte>, head': nat, p: Page, i: nat, total: nat)
    requires Inv(p) && i < |p.free| && NODE_SIZE <= total && total + NODE_SIZE <= p.sizes[p.free[i]]
    requires |m| == p.hi - p.lo && Linked(m, p.lo, head, p.free)
    requires OnlyWrites(m, m1, p.lo, p.free[i] + total + 8, 8, 0, 0)
    requires Inserted(m1, head, m2, head', p.lo, p.free[i], p.free[i] + total)
    ensures Linked(m2, p.lo, head', Split(p, i, total).free)
  {
    var b := p.free[i];
    assert Linked(m1, p.lo, head, p.free) by {
      LinkedKept(m, m1, p, head, b, total + 8, 8);
    }
    assert NodesApart(p.lo, p.lo + |m1|, p.free) && Outside(p.free, b + total) by {
      ListApart(p);
      SplitOutside(p, i, total);
    }
    InsertLinks(m1, head, m2, head', p.lo, p.free, i + 1, b + total);
    assert Split(p, i, total).free == p.free[..i + 1] + [b + total] + p.free[i + 1..];
  }

  // Unlinking the block that is about to be handed out.
  lemma TakeRepresented(m: seq<Byte>, head: nat, m': seq<Byte>, head': nat, p: Page, i: nat)
    requires Inv(p) && i < |p.free| && Represents(m, head, p, p.free[i])
    requires Removed(m, head, m', head', p.lo, PrevOf(p.free, i), p.free[i])
    ensures Represents(m', head', Take(p, i), p.free[i])
    ensures LiveKept(m, m', p, p.free[i])
  {
    var b, prev := p.free[i], PrevOf(p.free, i);
    ListApart(p);
    RemoveLinks(m, head, m', head', p.lo, p.free, i);
    assert StepWrites(m, m', p, b, 0, prev, if prev == 0 then 0 else 8);
    SizesKept(m, m', p, b, 0, prev, if prev == 0 then 0 else 8);
    TakeSized(m', p, i);
    StepKeepsLive(m, m', p, b, 0, prev, if prev == 0 then 0 else 8);
  }

  lemma TakeSized(m: seq<Byte>, p: Page, i: nat)
    requires i < |p.free| && NoDuplicates(p.free) && Listed(p) && Sized(m, p, p.free[i]) && Headed(m, p, p.free[i])
    ensures Sized(m, Take(p, i), p.free[i]) && Headed(m, Take(p, i), p.free[i])
  {
    var q := Take(p, i);
    forall j | 0 <= j < |q.free| && q.free[j] != p.free[i]
      ensures q.free[j] in q.sizes && HoldsNode(m, p.lo, q.free[j])
      ensures SecondPart(m, p.lo, q.free[j]) == q.sizes[q.free[j]]
    {
      assert q.free[j] == p.free[if j < i then j else j + 1];
    }
    forall b | b in q.live && b != p.free[i] ensures HeaderAt(m, q, b) {
      assert HeaderAt(m, p, b);
    }
  }

  // Size, then padding: what the bytes say once a header is written over a block that left the list.
  lemma HeaderRepresented(m: seq<Byte>, m1: seq<Byte>, m2: seq<Byte>, head: nat, q: Page, node: nat)
    requires Inv(q) && node in q.live && Represents(m, head, q, node)
    requires OnlyWrites(m, m1, q.lo, node + Padding(node) + 8, 8, 0, 0)
    requires HoldsNode(m1, q.lo, node + Padding(node)) && SecondPart(m1, q.lo, node + Padding(node)) == q.sizes[node]
    requires OnlyWrites(m1, m2, q.lo, node + Padding(node), 8, 0, 0)
    requires FirstPart(m2, q.lo, node + Padding(node)) == Padding(node)
    ensures Represents(m2, head, q, 0)
    ensures LiveKept(m, m2, q, node)
  {
    var h := node + Padding(node);
    WordKept(m1, m2, q.lo, h, 8, 0, 0, h + 8 - q.lo);
    assert OnlyWrites(m, m2, q.lo, node, q.sizes[node], 0, 0);
    SizesKept(m, m2, q, node, q.sizes[node], 0, 0);
    LinkedKept(m, m2, q, head, node, 0, q.sizes[node]);
    assert HeaderAt(m2, q, node);
    StepKeepsLive(m, m2, q, node, q.sizes[node], 0, 0);
  }

  // A listed node is a real address, not null.
  lemma LinkedPositive(m: seq<Byte>, head: nat, p: Page, i: nat)
    requires Represents(m, head, p, 0) && i < |p.free|
    ensures p.free[i] > 0 && HoldsNode(m, p.lo, p.free[i]) && SecondPart(m, p.lo, p.free[i]) == p.sizes[p.free[i]]
  {
    assert LinkAt(m, p.lo, p.free, i);
  }

  lemma ReopenRepresented(m: seq<Byte>, m1: seq<Byte>, m2: seq<Byte>, head: nat, p: Page, node: nat)
    requires Inv(p) && node in p.live && Represents(m, head, p, 0)
    requires OnlyWrites(m, m1, p.lo, node + 8, 8, 0, 0)
    requires HoldsNode(m1, p.lo, node) && SecondPart(m1, p.lo, node) == p.sizes[node]
    requires OnlyWrites(m1, m2, p.lo, node, 8, 0, 0)
    ensures Represents(m2, head, p, node)
    ensures HoldsNode(m2, p.lo, node) && SecondPart(m2, p.lo, node) == p.sizes[node]
    ensures LiveKept(m, m2, p, node)
  {
    assert OnlyWrites(m, m2, p.lo, node, NODE_SIZE, 0, 0);
    WordKept(m1, m2, p.lo, node, 8, 0, 0, node + 8 - p.lo);
    SizesKept(m, m2, p, node, NODE_SIZE, 0, 0);
    LinkedKept(m, m2, p, head, node, 0, NODE_SIZE);
    StepKeepsLive(m, m2, p, node, NODE_SIZE, 0, 0);
  }

  // Where the freed node may be linked.
  lemma GiveReady(m: seq<Byte>, head: nat, p: Page, node: nat, k: nat)
    requires Inv(p) && node in p.live && k <= |p.free| && |m| == p.hi - p.lo && Linked(m, p.lo, head, p.free)
    ensures var prev := PrevOf(p.free, k);
      && (prev == 0 || HoldsNode(m, p.lo, prev))
      && (prev == 0 || prev + NODE_SIZE <= node || node + NODE_SIZE <= prev)
      && (prev == 0 <==> k == 0) && head < WORD_LIMIT
  {
    ListApart(p);
    assert LinkAt(m, p.lo, p.free, k - 1) && LinkAt(m, p.lo, p.free, 0);
  }

  lemma GiveRepresented(m: seq<Byte>, head: nat, m': seq<Byte>, head': nat, p: Page, node: nat, k: nat)
    requires Inv(p) && node in p.live && k <= |p.free| && Represents(m, head, p, node)
    requires HoldsNode(m, p.lo, node) && SecondPart(m, p.lo, node) == p.sizes[node]
    requires Inserted(m, head, m', head', p.lo, PrevOf(p.free, k), node)
    ensures Represents(m', head', Give(p, node, k), 0)
    ensures LiveKept(m, m', p, node)
  {
    var prev := PrevOf(p.free, k);
    var n := if prev == 0 then 0 else 8;
    GiveReady(m, head, p, node, k);
    assert Linked(m', p.lo, head', Give(p, node, k).free) by {
      ListApart(p);
      InsertLinks(m, head, m', head', p.lo, p.free, k, node);
    }
    WordKept(m, m', p.lo, node, 8, prev, n, node + 8 - p.lo);
    SizesKept(m, m', p, node, 8, prev, n);
    GiveSized(m', p, node, k);
    StepKeepsLive(m, m', p, node, 8, prev, n);
  }

  lemma GiveSized(m: seq<Byte>, p: Page, node: nat, k: nat)
    requires node in p.sizes && k <= |p.free| && Sized(m, p, node) && Headed(m, p, node)
    requires HoldsNode(m, p.lo, node) && SecondPart(m, p.lo, node) == p.sizes[node]
    ensures Sized(m, Give(p, node, k), 0) && Headed(m, Give(p, node, k), 0)
  {
    var q := Give(p, node, k);
    forall j | 0 <= j < |q.free|
      ensures q.free[j] in q.sizes && HoldsNode(m, p.lo, q.free[j])
      ensures SecondPart(m, p.lo, q.free[j]) == q.sizes[q.free[j]]
    {
      if j != k {
        assert q.free[j] == p.free[if j < k then j else j - 1];
      }
    }
    forall b | b in q.live ensures HeaderAt(m, q, b) {
      assert HeaderAt(m, p, b);
    }
  }

  lemma MergeRepresented(m: seq<Byte>, m1: seq<Byte>, head: nat, m2: seq<Byte>, head': nat, p: Page, k: nat)
    requires Inv(p) && Touching(p, k) && Represents(m, head, p, 0)
    requires OnlyWrites(m, m1, p.lo, p.free[k] + 8, 8, 0, 0)
    requires HoldsNode(m1, p.lo, p.free[k])
    requires SecondPart(m1, p.lo, p.free[k]) == p.sizes[p.free[k]] + p.sizes[p.free[k + 1]]
    requires Removed(m1, head, m2, head', p.lo, p.free[k], p.free[k + 1])
    ensures Represents(m2, head', Merge(p, k), 0)
    ensures LiveKept(m, m2, p, 0)
  {
    var b := p.free[k];
    LinkedPositive(m, head, p, k);
    assert Linked(m2, p.lo, head', Merge(p, k).free) by {
      LinkedKept(m, m1, p, head, b, 8, 8);
      ListApart(p);
      RemoveLinks(m1, head, m2, head', p.lo, p.free, k + 1);
      assert p.free[k + 1 + 1..] == p.free[k + 2..];
    }
    assert OnlyWrites(m, m2, p.lo, b, NODE_SIZE, 0, 0);
    WordKept(m1, m2, p.lo, b, 8, 0, 0, b + 8 - p.lo);
    SizesKept(m, m2, p, b, NODE_SIZE, 0, 0);
    MergeSized(m2, p, k);
    StepKeepsLive(m, m2, p, b, NODE_SIZE, 0, 0);
  }

  lemma MergeSized(m: seq<Byte>, p: Page, k: nat)
    requires Accounted(p) && Touching(p, k) && p.free[k] != p.free[k + 1] && Sized(m, p, p.free[k])
    requires Headed(m, p, p.free[k])
    requires HoldsNode(m, p.lo, p.free[k])
    requires SecondPart(m, p.lo, p.free[k]) == p.sizes[p.free[k]] + p.sizes[p.free[k + 1]]
    ensures Sized(m, Merge(p, k), 0) && Headed(m, Merge(p, k), 0)
  {
    var q := Merge(p, k);
    PairsDiffer(p.free);
    forall j | 0 <= j < |q.free|
      ensures q.free[j] in q.sizes && HoldsNode(m, p.lo, q.free[j])
      ensures SecondPart(m, p.lo, q.free[j]) == q.sizes[q.free[j]]
    {
      var i := if j <= k then j else j + 1;
      assert q.free[j] == p.free[i];
      assert i != k + 1 && p.free[i] != p.free[k + 1];
    }
    forall b | b in q.live ensures HeaderAt(m, q, b) {
      assert HeaderAt(m, p, b);
    }
  }

  lemma DeallocateKeepsLive(m: seq<Byte>, m1: seq<Byte>, m2: seq<Byte>, p: Page, node: nat, k: nat)
    requires Inv(p) && node in p.live && k <= |p.free|
    requires LiveKept(m, m1, p, node) && LiveKept(m1, m2, Give(p, node, k), 0)
    ensures LiveKept(m, m2, p, node)
  {
    LiveKeptTwice(m, m1, m2, p, Give(p, node, k), node);
  }

  lemma Neighbours(p: Page, node: nat, k: nat)
    requires node in p.sizes && k <= |p.free|
    ensures var free := Give(p, node, k).free; k < |free| && free[k] == node && (k > 0 ==> free[k - 1] == p.free[k - 1])
  {
  }

  // The page between relinking the freed block and coalescing.
  lemma DeallocateIs(p: Page, ptr: nat, coalesce: bool)
    requires Inv(p) && Owns(p, ptr) && BaseOf(p, ptr) in p.live
    ensures var (b, k) := (BaseOf(p, ptr), InsertPosition(p.free, ptr));
      AnySizeSpec.Deallocate(p, ptr, coalesce)
      == if coalesce then AnySizeSpec.Coalesce(Give(p, b, k), k, KnowsPrevious(p.free, ptr)) else Give(p, b, k)
  {
  }

  class LogicalPageAnySize {
    const coalesce: bool           // the coalesce policy, fixed at compile time in the source

    var start: nat                 // m_logical_page_start_address
    var size: nat                  // m_logical_page_size
    var head: nat                  // m_head, 0 for an empty list
    var used: int                  // m_used_size
    var memory: array<Byte>        // the buffer given to create; memory[x] is the byte at start + x

    ghost var page: Page

    ghost predicate Valid()
      reads this, memory
    {
      && page.lo == start && page.hi == start + size && page.used == used
      && Inv(page)
      && Represents(memory[..], head, page, 0)
    }

    constructor (coalesce: bool)
      ensures this.coalesce == coalesce && fresh(memory)
    {
      this.coalesce := coalesce;
      start, size, head, used := 0, 0, 0, 0;
      memory := new Byte[0];
      page := Page(0, 0, map[], [], {}, 0);
    }

    method GetNext(node: nat) returns (next: nat)
      requires HoldsNode(memory[..], start, node)
      ensures next == FirstPart(memory[..], start, node) < WORD_LIMIT
    {
      next := ReadWord(memory, node - start);
    }

    method SetNext(node: nat, next: nat)
      requires HoldsNode(memory[..], start, node) && next < WORD_LIMIT
      modifies memory
      ensures OnlyWrites(old(memory[..]), memory[..], start, node, 8, 0, 0)
      ensures FirstPart(memory[..], start, node) == next
    {
      WriteWord(memory, node - start, next);
    }

    method GetBlockSize(node: nat) returns (size: nat)
      requires HoldsNode(memory[..], start, node)
      ensures size == SecondPart(memory[..], start, node) < WORD_LIMIT
    {
      size := ReadWord(memory, node + 8 - start);
    }

    method SetBlockSize(node: nat, size: nat)
      requires HoldsNode(memory[..], start, node) && size < WORD_LIMIT
      modifies memory
      ensures OnlyWrites(old(memory[..]), memory[..], start, node + 8, 8, 0, 0)
      ensures SecondPart(memory[..], start, node) == size
    {
      WriteWord(memory, node + 8 - start, size);
    }

    // Link `node` behind `prev`, or as head when prev is 0.
    method Insert(prev: nat, node: nat)
      requires HoldsNode(memory[..], start, node) && (prev == 0 || HoldsNode(memory[..], start, prev))
      requires prev == 0 || prev + NODE_SIZE <= node || node + NODE_SIZE <= prev
      requires head < WORD_LIMIT && start + memory.Length <= WORD_LIMIT
      modifies this`head, memory
      ensures Inserted(old(memory[..]), old(head), memory[..], head, start, prev, node)
    {
      ghost var m := memory[..];
      if prev == 0 {
        if head != 0 {
          SetNext(node, head);
        } else {
          SetNext(node, 0);
        }
        head := node;
      } else {
        var next := GetNext(prev);
        if next == 0 {
          SetNext(prev, node);
          ghost var m1 := memory[..];
          SetNext(node, 0);
          TwoLinks(m, m1, memory[..], start, prev, node);
        } else {
          SetNext(node, next);
          ghost var m1 := memory[..];
          SetNext(prev, node);
          TwoLinks(m, m1, memory[..], start, node, prev);
        }
      }
    }

    // Unlink `node`, whose predecessor in the list is `prev` (0 when it is the head).
    method Remove(prev: nat, node: nat)
      requires HoldsNode(memory[..], start, node) && (prev == 0 || HoldsNode(memory[..], start, prev))
      modifies this`head, memory
      ensures Removed(old(memory[..]), old(head), memory[..], head, start, prev, node)
    {
      var next := GetNext(node);
      if prev == 0 {
        if next == 0 {
          head := 0;
        } else {
          head := next;
        }
      } else {
        SetNext(prev, next);
      }
    }

    // The buffer, or the page object in front of it, must sit at the start of a virtual memory page.
    static predicate Acceptable(address: nat, length: nat) {
      length > NODE_SIZE && address != 0 && (address % 4096 == 0 || (address + 4096 - 64) % 4096 == 0)
    }

    // The whole buffer becomes one free block.
    method Format(address: nat, buffer: array<Byte>)
      requires Acceptable(address, buffer.Length) && address + buffer.Length <= WORD_LIMIT
      modifies this, buffer
      ensures start == address && size == buffer.Length && used == 0 && memory == buffer
      ensures Represents(memory[..], head, Fresh(address, address + size), 0)
    {
      start, size, head, used, memory := address, buffer.Length, 0, 0, buffer;
      SetBlockSize(start, size);
      ghost var m := memory[..];
      Insert(0, start);
      FreshRepresented(m, memory[..], start, size);
    }

    method Create(address: nat, buffer: array<Byte>) returns (ok: bool)
      requires address + buffer.Length <= WORD_LIMIT
      modifies this, buffer
      ensures ok <==> Acceptable(address, buffer.Length)
      ensures ok ==> Valid() && memory == buffer && page == Fresh(address, address + buffer.Length)
      ensures !ok ==> unchanged(this) && unchanged(buffer)
    {
      if buffer.Length <= NODE_SIZE || address == 0 {
        return false;
      }
      if address % 4096 != 0 && (address + 4096 - 64) % 4096 != 0 {
        return false;
      }
      Format(address, buffer);
      page := Fresh(address, address + buffer.Length);
      FreshInv(address, address + buffer.Length);
      return true;
    }

    // First fit, with the list predecessor of what it finds; i is the list position, |free| if none.
    method Find(size: nat) returns (prev: nat, found: nat, padding: nat, ghost i: nat)
      requires start == page.lo && Listed(page) && Represents(memory[..], head, page, 0)
      ensures i == FirstFit(page, size, 0) && found == ElementOr0(page.free, FirstFit(page, size, 0))
      ensures found != 0 ==>
        i < |page.free| && prev == PrevOf(page.free, FirstFit(page, size, 0)) && padding == Padding(found)
    {
      prev, found, padding, i := 0, 0, 0, 0;
      var iter := head;
      var iterPrev := 0;
      while iter != 0
        invariant i <= |page.free| && iter == ElementOr0(page.free, i)
        invariant iter != 0 ==> iterPrev == PrevOf(page.free, i)
        invariant FirstFit(page, size, i) == FirstFit(page, size, 0)
        invariant found == 0
        decreases |page.free| - i
      {
        assert LinkAt(memory[..], start, page.free, i);
        padding := Padding(iter);
        var requiredSpace := Wrap(AllocationSize(size) + NODE_SIZE + padding);
        var blockSize := GetBlockSize(iter);
        if blockSize >= requiredSpace {
          prev := iterPrev;
          found := iter;
          break;
        }
        var next := GetNext(iter);
        if next != 0 {
          iterPrev := iter;
        }
        iter := next;
        i := i + 1;
      }
      assert LinkAt(memory[..], start, page.free, i);
    }

    // Cut the chosen block and list its tail right behind it; the block's own size word stays stale.
    method ReturnExcess(found: nat, total: nat, excess: nat, ghost i: nat)
      requires Valid() && i < |page.free| && found == page.free[i]
      requires NODE_SIZE <= total && NODE_SIZE <= excess && total + excess == page.sizes[found]
      modifies this`head, memory
      ensures Represents(memory[..], head, Split(page, i, total), found)
      ensures LiveKept(old(memory[..]), memory[..], page, found)
    {
      ghost var m := memory[..];
      var rest := found + total;
      LinkedPositive(m, head, page, i);
      assert HoldsNode(m, start, rest);
      SetBlockSize(rest, excess);
      ghost var m1 := memory[..];
      Insert(found, rest);
      SplitRepresented(m, old(head), m1, memory[..], head, page, i, total);
    }

    // The header goes over the start of the block that was just unlinked.
    method WriteHeader(node: nat, padding: nat, total: nat, ghost q: Page)
      requires start == q.lo && Inv(q) && node in q.live
      requires padding == Padding(node) && total == q.sizes[node]
      requires Represents(memory[..], head, q, node)
      modifies memory
      ensures Represents(memory[..], head, q, 0)
      ensures LiveKept(old(memory[..]), memory[..], q, node)
    {
      ghost var m := memory[..];
      var header := node + padding;
      assert HoldsNode(m, start, header);
      SetBlockSize(header, total);
      ghost var m1 := memory[..];
      SetNext(header, padding);
      HeaderRepresented(m, m1, memory[..], head, q, node);
    }

    // The unlinking step of allocate.
    method UnlinkFound(prev: nat, found: nat, ghost mid: Page, ghost i: nat)
      requires start == mid.lo && Inv(mid) && i < |mid.free| && found == mid.free[i] && prev == PrevOf(mid.free, i)
      requires Represents(memory[..], head, mid, found)
      modifies this`head, memory
      ensures Represents(memory[..], head, Take(mid, i), found)
      ensures LiveKept(old(memory[..]), memory[..], mid, found)
    {
      ghost var m := memory[..];
      assert LinkAt(m, start, mid.free, i) && LinkAt(m, start, mid.free, i - 1);
      ListApart(mid);
      Remove(prev, found);
      TakeRepresented(m, old(head), memory[..], head, mid, i);
    }

    // Take the chosen block out of the list, giving back what exceeds the request by a node or more;
    // returns the size of the block that is left.
    method UnlinkBlock(prev: nat, found: nat, required: nat, ghost i: nat) returns (total: nat)
      requires Valid() && i < |page.free| && found == page.free[i] && prev == PrevOf(page.free, i)
      requires Padding(found) + 2 * NODE_SIZE <= required <= page.sizes[found]
      modifies this`head, memory
      ensures var q := AllocateAt(page, i, required);
        && Inv(q) && found in q.live && total == q.sizes[found]
        && Represents(memory[..], head, q, found)
      ensures LiveKept(old(memory[..]), memory[..], page, found)
    {
      ghost var m := memory[..];
      AllocateAtInv(page, i, required);
      LinkedPositive(m, head, page, i);
      total := required;
      var blockSize := GetBlockSize(found);
      var excess := blockSize - total;
      if excess >= NODE_SIZE {
        SplitInv(page, i, total);
        ReturnExcess(found, total, excess, i);
        ghost var mid, m1 := Split(page, i, total), memory[..];
        assert PrevOf(mid.free, i) == prev;
        UnlinkFound(prev, found, mid, i);
        LiveKeptTwice(m, m1, memory[..], page, mid, found);
      } else {
        total := total + excess;
        UnlinkFound(prev, found, page, i);
      }
    }

    // Everything allocate does once a block is chosen.
    method HandOut(prev: nat, found: nat, padding: nat, required: nat, ghost i: nat)
      requires Valid() && i < |page.free| && found == page.free[i] && prev == PrevOf(page.free, i)
      requires padding == Padding(found) && padding + 2 * NODE_SIZE <= required <= page.sizes[found]
      modifies this, memory
      ensures Valid() && memory == old(memory) && start == old(start) && size == old(size)
      ensures page == AllocateAt(old(page), i, required)
      ensures LiveKept(old(memory[..]), memory[..], old(page), 0)
    {
      ghost var m, p := memory[..], page;
      AllocateAtInv(p, i, required);
      var total := UnlinkBlock(prev, found, required, i);
      ghost var m1 := memory[..];
      WriteHeader(found, padding, total, AllocateAt(p, i, required));
      AllocateKeepsLive(m, m1, memory[..], p, i, required);
      used := used + total;
      page := AllocateAt(p, i, required);
    }

    method Allocate(size: nat) returns (ptr: nat)
      requires Valid() && NoFalseFit(page, size)
      modifies this, memory
      ensures Valid() && memory == old(memory) && start == old(start) && this.size == old(this.size)
      ensures page == AnySizeSpec.Allocate(old(page), size).0 && ptr == AnySizeSpec.Allocate(old(page), size).1
      ensures LiveKept(old(memory[..]), memory[..], old(page), 0)
    {
      var prev, found, padding, i := Find(size);
      if found == 0 {
        assert LinkAt(memory[..], start, page.free, i);
        NoneChosen(page, size);
        return 0;
      }
      var required := AllocationSize(size) + NODE_SIZE + padding;
      ChosenBlock(page, size, i, required);
      HandOut(prev, found, padding, required, i);
      return found + padding + NODE_SIZE;
    }

    // get_usable_size reads the block size in the header and takes off the header, but not the padding.
    method GetUsableSize(ptr: nat) returns (usable: nat)
      requires Valid() && ptr in LivePtrs(page)
      ensures usable == UsableSize(page, ptr)
    {
      LivePtrBase(page, ptr);
      assert HeaderAt(memory[..], page, BaseOf(page, ptr));
      var blockSize := GetBlockSize(ptr - NODE_SIZE);
      return blockSize - NODE_SIZE;
    }

    // The freed block's header becomes a free node at the block's start; they may overlap.
    method Reopen(ptr: nat) returns (node: nat)
      requires Valid() && BaseOf(page, ptr) in page.live && ptr == Payload(BaseOf(page, ptr))
      modifies memory
      ensures node == BaseOf(page, ptr)
      ensures Represents(memory[..], head, page, node)
      ensures HoldsNode(memory[..], start, node) && SecondPart(memory[..], start, node) == page.sizes[node]
      ensures LiveKept(old(memory[..]), memory[..], page, node)
    {
      ghost var m, b := memory[..], BaseOf(page, ptr);
      assert HeaderAt(m, page, b);
      var header := ptr - NODE_SIZE;
      var padding := GetNext(header);
      var blockSize := GetBlockSize(header);
      node := header - padding;
      assert HoldsNode(m, start, node);
      SetBlockSize(node, blockSize);
      ghost var m1 := memory[..];
      SetNext(node, 0);
      ReopenRepresented(m, m1, memory[..], head, page, node);
    }

    // The walk of deallocate: the last node before the first one above ptr, and its successor's position.
    method Walk(ptr: nat) returns (previous: nat, ghost k: nat)
      requires page.lo == start && Linked(memory[..], start, head, page.free)
      ensures k == FirstAbove(page.free, ptr, 0) && previous == PrevOf(page.free, FirstAbove(page.free, ptr, 0))
    {
      previous, k := 0, 0;
      var iter := head;
      while iter != 0 && ptr >= iter
        invariant k <= |page.free| && iter == ElementOr0(page.free, k) && previous == PrevOf(page.free, k)
        invariant FirstAbove(page.free, ptr, k) == FirstAbove(page.free, ptr, 0)
        decreases |page.free| - k
      {
        assert LinkAt(memory[..], start, page.free, k);
        previous := iter;
        iter := GetNext(iter);
        k := k + 1;
      }
      assert LinkAt(memory[..], start, page.free, k);
    }

    // Link the freed node; `previous` is what coalesce gets to see.
    method Link(node: nat, ptr: nat) returns (previous: nat, ghost k: nat)
      requires page.lo == start && Inv(page) && node in page.live && Represents(memory[..], head, page, node)
      requires HoldsNode(memory[..], start, node) && SecondPart(memory[..], start, node) == page.sizes[node]
      modifies this`head, memory
      ensures k == InsertPosition(page.free, ptr) && PutAt(page.free, ptr, k)
      ensures previous == if KnowsPrevious(page.free, ptr) then PrevOf(page.free, k) else 0
      ensures Represents(memory[..], head, Give(page, node, k), 0)
      ensures LiveKept(old(memory[..]), memory[..], page, node)
    {
      ghost var m := memory[..];
      previous, k := 0, 0;
      assert LinkAt(m, start, page.free, 0);
      if head != 0 {
        var next := GetNext(head);
        if next == 0 {
          k := 1;
          GiveReady(m, head, page, node, k);
          Insert(head, node);
        } else {
          previous, k := Walk(ptr);
          GiveReady(m, head, page, node, k);
          Insert(previous, node);
        }
      } else {
        GiveReady(m, head, page, node, k);
        Insert(previous, node);
      }
      PlaceUnique(page.free, ptr, k);
      GiveRepresented(m, old(head), memory[..], head, page, node, k);
    }

    // Enlarge `node` by the block behind it, which leaves the list.
    method Absorb(node: nat, next: nat, ghost k: nat)
      requires Valid() && Touching(page, k) && node == page.free[k] && next == page.free[k + 1]
      modifies this`head, this`page, memory
      ensures Valid() && page == Merge(old(page), k)
      ensures LiveKept(old(memory[..]), memory[..], old(page), 0)
    {
      ghost var m := memory[..];
      LinkedPositive(m, head, page, k);
      LinkedPositive(m, head, page, k + 1);
      var size0 := GetBlockSize(node);
      var size1 := GetBlockSize(next);
      MergeInv(page, k);
      assert Merge(page, k).sizes[node] == size0 + size1;
      SetBlockSize(node, size0 + size1);
      ghost var m1 := memory[..];
      Remove(node, next);
      MergeRepresented(m, m1, old(head), memory[..], head, page, k);
      page := Merge(page, k);
    }

    method AbsorbIfTouching(node: nat, next: nat, ghost k: nat)
      requires Valid() && k < |page.free| && node == page.free[k] && next == ElementOr0(page.free, k + 1)
      modifies this`head, this`page, memory
      ensures Valid() && page == MergeIfTouching(old(page), k)
      ensures LiveKept(old(memory[..]), memory[..], old(page), 0)
    {
      LinkedPositive(memory[..], head, page, k);
      if next != 0 {
        var size := GetBlockSize(node);
        if node + size == next {
          Absorb(node, next, k);
        }
      }
    }

    // Merge the node at list position k with its successor, then with `previous`, where they touch.
    method Coalesce(previous: nat, node: nat, ghost k: nat)
      requires Valid() && k < |page.free| && node == page.free[k]
      requires previous == 0 || (k > 0 && previous == page.free[k - 1])
      modifies this`head, this`page, memory
      ensures Valid() && page == AnySizeSpec.Coalesce(old(page), k, previous != 0)
      ensures LiveKept(old(memory[..]), memory[..], old(page), 0)
    {
      ghost var m, p := memory[..], page;
      LinkedPositive(m, head, page, k);
      assert LinkAt(m, start, page.free, k);
      var next := GetNext(node);
      AbsorbIfTouching(node, next, k);
      if previous != 0 {
        MergeIfTouchingInv(p, k);
        ghost var m1, q := memory[..], page;
        AbsorbIfTouching(previous, node, k - 1);
        LiveKeptTwice(m, m1, memory[..], p, q, 0);
      }
    }

    // Make the freed block a free node and link it.
    method GiveBack(ptr: nat) returns (node: nat, previous: nat, ghost k: nat)
      requires Valid() && BaseOf(page, ptr) in page.live && ptr == Payload(BaseOf(page, ptr))
      modifies this`head, this`page, this`used, memory
      ensures node == BaseOf(old(page), ptr) && k == InsertPosition(old(page.free), ptr)
      ensures Valid() && page == Give(old(page), node, k) && k < |page.free| && page.free[k] == node
      ensures if KnowsPrevious(old(page.free), ptr) then 0 < k && 0 < previous == page.free[k - 1] else previous == 0
      ensures LiveKept(old(memory[..]), memory[..], old(page), node)
    {
      ghost var m, p := memory[..], page;
      node := Reopen(ptr);
      ghost var m1 := memory[..];
      previous, k := Link(node, ptr);
      LiveKeptTwice(m, m1, memory[..], p, p, node);
      GiveAccounted(p, node, k);
      Neighbours(p, node, k);
      page := Give(p, node, k);
      LinkedPositive(memory[..], head, page, k);
      LinkedPositive(memory[..], head, page, if k > 0 then k - 1 else k);
      var blockSize := GetBlockSize(node);
      used := used - blockSize;
    }

    method Deallocate(ptr: nat)
      requires Valid()
      requires Owns(page, ptr) ==> BaseOf(page, ptr) in page.live && ptr == Payload(BaseOf(page, ptr))
      modifies this, memory
      ensures Valid() && memory == old(memory) && start == old(start) && size == old(size)
      ensures page == AnySizeSpec.Deallocate(old(page), ptr, coalesce)
      ensures !old(start <= ptr < start + size) ==> page == old(page) && memory[..] == old(memory[..])
      ensures LiveKept(old(memory[..]), memory[..], old(page), BaseOf(old(page), ptr))
    {
      if !(start <= ptr < start + size) {
        return;
      }
      ghost var m, p := memory[..], page;
      DeallocateIs(p, ptr, coalesce);
      var node, previous, k := GiveBack(ptr);
      ghost var m1 := memory[..];
      if coalesce {
        Coalesce(previous, node, k);
      }
      DeallocateKeepsLive(m, m1, memory[..], p, node, k);
    }
  }
}
