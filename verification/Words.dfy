// Memory as the pages see it: bytes, and 64-bit little-endian words at any byte offset.
// A free-list node and an allocation header are two such words; they may overlap, because a
// block may start at an odd address while its header is 16-byte aligned.
module Words {
  type Byte = x: int | 0 <= x < 256

  const WORD_LIMIT: nat := 0x1_0000_0000_0000_0000

  function Pow256(n: nat): nat {
    if n == 0 then 1 else 256 * Pow256(n - 1)
  }

  function Encode(v: nat, n: nat): (s: seq<Byte>)
    ensures |s| == n
  {
    if n == 0 then [] else [v % 256] + Encode(v / 256, n - 1)
  }

  // The little-endian number in the bytes of offsets [q, end).
  function DecodeTo(m: seq<Byte>, q: nat, end: nat): nat
    requires q <= end <= |m|
    decreases end - q
  {
    if q == end then 0 else m[q] + 256 * DecodeTo(m, q + 1, end)
  }

  // The word stored at byte offset q.
  function Word(m: seq<Byte>, q: nat): nat
    requires q + 8 <= |m|
  {
    DecodeTo(m, q, q + 8)
  }

  // What was encoded at an offset reads back.
  lemma {:induction false} DecodeEncode(m: seq<Byte>, q: nat, v: nat, n: nat)
    requires q + n <= |m| && v < Pow256(n)
    requires m[q..q + n] == Encode(v, n)
    ensures DecodeTo(m, q, q + n) == v
    decreases n
  {
    if n > 0 {
      assert m[q..q + n][0] == v % 256;
      assert m[q + 1..q + 1 + (n - 1)] == Encode(v / 256, n - 1);
      DecodeEncode(m, q + 1, v / 256, n - 1);
    }
  }

  // Reading depends only on the bytes read.
  lemma {:induction false} DecodeSame(m: seq<Byte>, m': seq<Byte>, q: nat, end: nat)
    requires |m| == |m'| && q <= end <= |m|
    requires forall k :: q <= k < end ==> m[k] == m'[k]
    ensures DecodeTo(m, q, end) == DecodeTo(m', q, end)
    decreases end - q
  {
    if q < end {
      DecodeSame(m, m', q + 1, end);
    }
  }

  lemma {:induction false} DecodeBound(m: seq<Byte>, q: nat, end: nat)
    requires q <= end <= |m|
    ensures DecodeTo(m, q, end) < Pow256(end - q)
    decreases end - q
  {
    if q < end {
      DecodeBound(m, q + 1, end);
    }
  }

  lemma WordRange()
    ensures Pow256(8) == WORD_LIMIT
  {
    assert Pow256(4) == 0x1_0000_0000;
  }

  ghost predicate SameOutside(m: seq<Byte>, m': seq<Byte>, q: nat, n: nat) {
    |m| == |m'| && forall k :: 0 <= k < |m| && (k < q || q + n <= k) ==> m'[k] == m[k]
  }

  method ReadWord(a: array<Byte>, q: nat) returns (v: nat)
    requires q + 8 <= a.Length
    ensures v == Word(a[..], q) < WORD_LIMIT
  {
    WordRange();
    DecodeBound(a[..], q, q + 8);
    v := Word(a[..], q);
  }

  method WriteWord(a: array<Byte>, q: nat, v: nat)
    requires q + 8 <= a.Length && v < WORD_LIMIT
    modifies a
    ensures Word(a[..], q) == v
    ensures SameOutside(old(a[..]), a[..], q, 8)
  {
    var bytes := Encode(v, 8);
    forall k | q <= k < q + 8 {
      a[k] := bytes[k - q];
    }
    WordRange();
    assert a[..][q..q + 8] == bytes;
    DecodeEncode(a[..], q, v, 8);
  }
}
