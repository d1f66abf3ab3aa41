// A range of addresses [lo, hi) cut into blocks: a map from each block's first address to its size.
// The tiling is stated locally (every block ends at another block or at hi), so that splitting and
// merging touch one or two entries and never depend on the order in which anyone lists the blocks.
module Tiling {
  const NODE_SIZE: nat := 16

  // Block b ends at the end of the range or where another block starts.
  ghost predicate Followed(sizes: map<nat, nat>, b: nat, hi: nat) {
    b in sizes ==> b + sizes[b] == hi || b + sizes[b] in sizes
  }

  // Two blocks do not overlap.
  ghost predicate Apart(sizes: map<nat, nat>, b: nat, c: nat) {
    b in sizes && c in sizes && b < c ==> b + sizes[b] <= c
  }

  ghost predicate Tiles(sizes: map<nat, nat>, lo: nat, hi: nat) {
    && lo in sizes
    && (forall b :: b in sizes ==> lo <= b && NODE_SIZE <= sizes[b] && b + sizes[b] <= hi)
    && (forall b: nat :: Followed(sizes, b, hi))
    && (forall b: nat, c: nat :: Apart(sizes, b, c))
  }

  // Sum of sizes[b] over a set of blocks.
  ghost function Total(blocks: set<nat>, sizes: map<nat, nat>): nat
    requires blocks <= sizes.Keys
  {
    if blocks == {} then 0
    else
      var b :| b in blocks;
      sizes[b] + Total(blocks - {b}, sizes)
  }

  lemma {:induction false} TotalRemove(blocks: set<nat>, sizes: map<nat, nat>, b: nat)
    requires blocks <= sizes.Keys && b in blocks
    ensures Total(blocks, sizes) == sizes[b] + Total(blocks - {b}, sizes)
    decreases blocks
  {
    var c :| c in blocks && Total(blocks, sizes) == sizes[c] + Total(blocks - {c}, sizes);
    if c != b {
      TotalRemove(blocks - {c}, sizes, b);
      TotalRemove(blocks - {b}, sizes, c);
      assert blocks - {c} - {b} == blocks - {b} - {c};
    }
  }

  lemma {:induction false} TotalSame(blocks: set<nat>, sizes: map<nat, nat>, sizes': map<nat, nat>)
    requires blocks <= sizes.Keys && blocks <= sizes'.Keys
    requires forall b :: b in blocks ==> sizes[b] == sizes'[b]
    ensures Total(blocks, sizes) == Total(blocks, sizes')
    decreases blocks
  {
    if blocks != {} {
      var b :| b in blocks;
      TotalRemove(blocks, sizes, b);
      TotalRemove(blocks, sizes', b);
      TotalSame(blocks - {b}, sizes, sizes');
    }
  }

  lemma {:induction false} TotalUnion(xs: set<nat>, ys: set<nat>, sizes: map<nat, nat>)
    requires xs <= sizes.Keys && ys <= sizes.Keys && xs !! ys
    ensures Total(xs + ys, sizes) == Total(xs, sizes) + Total(ys, sizes)
    decreases xs
  {
    if xs == {} {
      assert xs + ys == ys;
    } else {
      var x :| x in xs;
      TotalRemove(xs, sizes, x);
      TotalRemove(xs + ys, sizes, x);
      assert xs + ys - {x} == (xs - {x}) + ys;
      TotalUnion(xs - {x}, ys, sizes);
    }
  }

  // No byte is lost: the block sizes add up to the length of the range.
  lemma {:induction false} TilesTotal(sizes: map<nat, nat>, lo: nat, hi: nat)
    requires Tiles(sizes, lo, hi)
    ensures Total(sizes.Keys, sizes) == hi - lo
    decreases hi - lo
  {
    TotalRemove(sizes.Keys, sizes, lo);
    var next := lo + sizes[lo];
    var rest := sizes - {lo};
    assert rest.Keys == sizes.Keys - {lo};
    TotalSame(rest.Keys, sizes, rest);
    assert Followed(sizes, lo, hi);
    forall b | b in rest ensures next <= b {
      assert Apart(sizes, lo, b);
    }
    if next == hi {
      assert rest.Keys == {};
    } else {
      forall b: nat ensures Followed(rest, b, hi) {
        assert Followed(sizes, b, hi);
      }
      forall b: nat, c: nat ensures Apart(rest, b, c) {
        assert Apart(sizes, b, c);
      }
      TilesTotal(rest, next, hi);
    }
  }

  ghost predicate InBlock(sizes: map<nat, nat>, b: nat, x: int) {
    b in sizes && b <= x < b + sizes[b]
  }

  // Every byte of the range lies in exactly one block.
  lemma TilesCover(sizes: map<nat, nat>, lo: nat, hi: nat, x: nat) returns (b: nat)
    requires Tiles(sizes, lo, hi) && lo <= x < hi
    ensures InBlock(sizes, b, x)
    ensures forall c :: InBlock(sizes, c, x) ==> c == b
  {
    b := lo;
    while x >= b + sizes[b]
      invariant b in sizes && b <= x
      decreases hi - b
    {
      assert Followed(sizes, b, hi);
      b := b + sizes[b];
    }
    forall c | InBlock(sizes, c, x) ensures c == b {
      assert Apart(sizes, b, c) && Apart(sizes, c, b);
    }
  }

  function SplitSizes(sizes: map<nat, nat>, b: nat, n: nat): map<nat, nat>
    requires b in sizes && n <= sizes[b]
  {
    sizes[b := n][b + n := sizes[b] - n]
  }

  // Cutting block b after its first n bytes.
  lemma SplitTiles(sizes: map<nat, nat>, lo: nat, hi: nat, b: nat, n: nat)
    requires Tiles(sizes, lo, hi) && b in sizes
    requires NODE_SIZE <= n && n + NODE_SIZE <= sizes[b]
    ensures b + n !in sizes
    ensures Tiles(SplitSizes(sizes, b, n), lo, hi)
  {
    var after := SplitSizes(sizes, b, n);
    assert Apart(sizes, b, b + n);
    forall c: nat ensures Followed(after, c, hi) {
      assert Followed(sizes, if c == b + n then b else c, hi);
    }
    forall c: nat, d: nat ensures Apart(after, c, d) {
      var c', d' := if c == b + n then b else c, if d == b + n then b else d;
      assert Apart(sizes, c', d') && Apart(sizes, b, c');
    }
  }

  ghost predicate Adjacent(sizes: map<nat, nat>, b: nat, c: nat) {
    b in sizes && c in sizes && b + sizes[b] == c
  }

  function MergeSizes(sizes: map<nat, nat>, b: nat, c: nat): map<nat, nat>
    requires b in sizes && c in sizes
  {
    sizes[b := sizes[b] + sizes[c]] - {c}
  }

  // Joining block b with the block that starts exactly where b ends.
  lemma MergeTiles(sizes: map<nat, nat>, lo: nat, hi: nat, b: nat, c: nat)
    requires Tiles(sizes, lo, hi) && Adjacent(sizes, b, c)
    ensures Tiles(MergeSizes(sizes, b, c), lo, hi)
  {
    var after := MergeSizes(sizes, b, c);
    forall d: nat ensures Followed(after, d, hi) {
      assert Followed(sizes, if d == b then c else d, hi);
      assert Followed(sizes, d, hi);
      assert Apart(sizes, d, b) && Apart(sizes, b, d);
    }
    forall d: nat, e: nat ensures Apart(after, d, e) {
      assert Apart(sizes, d, e) && Apart(sizes, c, e) && Apart(sizes, d, c);
    }
  }
}
