// Rounding up to a power of two by bit smearing, the three forms of the binary logarithm, and the
// choice of a small-object bin that rests on them.
module Pow2Log2 {
  import opened Bits
  import opened Words

  // ---- Bits of the operations ----

  lemma {:induction false} NoBits(i: nat)
    ensures !Bit(0, i)
  {
    if i > 0 {
      NoBits(i - 1);
    }
  }

  lemma {:induction false} BitOfOr(a: nat, b: nat, i: nat)
    ensures Bit(BitOr(a, b), i) <==> Bit(a, i) || Bit(b, i)
    decreases i
  {
    NoBits(i);
    if a != 0 && b != 0 && i > 0 {
      assert BitOr(a, b) / 2 == BitOr(a / 2, b / 2);
      BitOfOr(a / 2, b / 2, i - 1);
    }
  }

  lemma {:induction false} BitOfShift(a: nat, k: nat, i: nat)
    ensures Bit(ShiftRight(a, k), i) == Bit(a, i + k)
    decreases k
  {
    if k > 0 {
      BitOfShift(a / 2, k - 1, i);
    }
  }

  // Some bit among n consecutive ones from position i is set.
  predicate Window(x: nat, i: nat, n: nat)
    decreases n
  {
    n > 0 && (Bit(x, i) || Window(x, i + 1, n - 1))
  }

  lemma {:induction false} WindowSplit(x: nat, i: nat, n: nat, m: nat)
    ensures Window(x, i, n + m) <==> Window(x, i, n) || Window(x, i + n, m)
    decreases n
  {
    if n > 0 {
      WindowSplit(x, i + 1, n - 1, m);
    }
  }

  lemma {:induction false} WindowBit(x: nat, i: nat, n: nat, j: nat)
    requires i <= j < i + n && Bit(x, j)
    ensures Window(x, i, n)
    decreases n
  {
    if i < j {
      WindowBit(x, i + 1, n - 1, j);
    }
  }

  ghost predicate Smeared(y: nat, x: nat, n: nat) {
    forall i: nat :: Bit(y, i) <==> Window(x, i, n)
  }

  function SmearStep(y: nat, k: nat): nat {
    BitOr(y, ShiftRight(y, k))
  }

  // Or-ing with a copy shifted by n doubles the window each bit has seen.
  lemma SmearDoubles(y: nat, x: nat, n: nat)
    requires Smeared(y, x, n)
    ensures Smeared(SmearStep(y, n), x, n + n)
  {
    forall i: nat ensures Bit(SmearStep(y, n), i) <==> Window(x, i, n + n) {
      BitOfOr(y, ShiftRight(y, n), i);
      BitOfShift(y, n, i);
      assert Bit(y, i + n) <==> Window(x, i + n, n);
      WindowSplit(x, i, n, n);
    }
  }

  function Smear(x: nat): nat {
    SmearStep(SmearStep(SmearStep(SmearStep(SmearStep(x, 1), 2), 4), 8), 16)
  }

  lemma SmearSees32(x: nat)
    ensures Smeared(Smear(x), x, 32)
  {
    assert Smeared(x, x, 1) by {
      forall i: nat ensures Bit(x, i) <==> Window(x, i, 1) {
        assert Window(x, i + 1, 0) == false;
      }
    }
    SmearDoubles(x, x, 1);
    var a := SmearStep(x, 1);
    SmearDoubles(a, x, 2);
    var b := SmearStep(a, 2);
    SmearDoubles(b, x, 4);
    var c := SmearStep(b, 4);
    SmearDoubles(c, x, 8);
    SmearDoubles(SmearStep(c, 8), x, 16);
  }

  // ---- Logarithms ----

  // compile_time_log2
  function Log2(n: nat): nat {
    if n <= 1 then 0 else 1 + Log2(n / 2)
  }

  // The position of the highest set bit.
  lemma {:induction false} Log2Bounds(n: nat)
    requires n >= 1
    ensures Pow2(Log2(n)) <= n < Pow2(Log2(n) + 1)
    ensures Bit(n, Log2(n))
  {
    if n > 1 {
      Log2Bounds(n / 2);
    }
  }

  lemma {:induction false} NoHighBits(x: nat, h: nat, i: nat)
    requires x < Pow2(h) && h <= i
    ensures !Bit(x, i)
    decreases i
  {
    if i > 0 {
      if h == 0 {
        NoBits(i);
      } else {
        NoHighBits(x / 2, h - 1, i - 1);
      }
    }
  }

  lemma {:induction false} Log2Unique(n: nat, k: nat)
    requires Pow2(k) <= n < Pow2(k + 1)
    ensures Log2(n) == k
    decreases k
  {
    if k > 0 {
      Log2Unique(n / 2, k - 1);
    }
  }

  // The loop form.
  method Log2Loop(n: nat) returns (result: nat)
    ensures result == Log2(n)
  {
    result := 0;
    var m: nat := n / 2;
    while m != 0
      invariant result + (if m == 0 then 0 else 1 + Log2(m)) == Log2(n)
    {
      result := result + 1;
      m := m / 2;
    }
  }

  // __builtin_clzl: zero bits above the highest set bit, looking down from bit i.
  function LeadingZeros(x: nat, i: nat): (r: nat)
    ensures r <= i + 1
  {
    if Bit(x, i) then 0 else if i == 0 then 1 else 1 + LeadingZeros(x, i - 1)
  }

  // log2_power_of_two
  function Log2Clz(input: nat): int {
    63 - LeadingZeros(input, 63)
  }

  lemma {:induction false} LeadingZerosCount(x: nat, i: nat)
    requires 1 <= x < Pow2(i + 1)
    ensures LeadingZeros(x, i) == i - Log2(x)
    decreases i
  {
    Log2Bounds(x);
    if Bit(x, i) {
      if x < Pow2(i) {
        NoHighBits(x, i, i);
      }
      Log2Unique(x, i);
    } else {
      assert x < Pow2(i) by {
        if x >= Pow2(i) {
          Log2Unique(x, i);
        }
      }
      LeadingZerosCount(x, i - 1);
    }
  }

  // The recursive and the leading-zero form agree on every non-zero 64-bit number.
  lemma Log2FormsAgree(n: nat)
    requires 1 <= n < WORD_LIMIT
    ensures Log2Clz(n) == Log2(n)
    ensures Pow2(Log2(n)) <= n < Pow2(Log2(n) + 1)
  {
    Pow2Values();
    LeadingZerosCount(n, 63);
    Log2Bounds(n);
  }

  // ---- get_first_pow2_of ----

  ghost predicate LeastPow2(r: nat, input: nat) {
    IsPow2(r) && input <= r && forall s: nat :: IsPow2(s) && input <= s ==> r <= s
  }

  lemma {:induction false} OnesBits(h: nat, i: nat)
    ensures Bit(Pow2(h) - 1, i) <==> i < h
    decreases h
  {
    if h == 0 {
      NoBits(i);
    } else {
      assert (Pow2(h) - 1) / 2 == Pow2(h - 1) - 1 && (Pow2(h) - 1) % 2 == 1;
      if i > 0 {
        OnesBits(h - 1, i - 1);
      }
    }
  }

  lemma {:induction false} BitsDetermine(a: nat, b: nat)
    requires forall i: nat :: Bit(a, i) == Bit(b, i)
    ensures a == b
    decreases a + b
  {
    if a + b > 0 {
      assert Bit(a, 0) == Bit(b, 0);
      forall i: nat ensures Bit(a / 2, i) == Bit(b / 2, i) {
        assert Bit(a, i + 1) == Bit(b, i + 1);
      }
      BitsDetermine(a / 2, b / 2);
    }
  }

  // No 32 zero bits in a row below the highest set bit.
  ghost predicate NoLongGap(x: nat) {
    forall i: nat :: i <= Log2(x) ==> Window(x, i, 32)
  }

  lemma {:induction false} NoWindow(x: nat, h: nat, i: nat, n: nat)
    requires x < Pow2(h) && h <= i
    ensures !Window(x, i, n)
    decreases n
  {
    if n > 0 {
      NoHighBits(x, h, i);
      NoWindow(x, h, i + 1, n - 1);
    }
  }

  // Smearing sets no bit above the highest one.
  lemma SmearedBelow(y: nat, x: nat)
    requires x >= 1 && Smeared(y, x, 32)
    ensures y < Pow2(Log2(x) + 1)
  {
    var h := Log2(x);
    Log2Bounds(x);
    if y >= 1 {
      Log2Bounds(y);
      var t := Log2(y);
      assert Bit(y, t) <==> Window(x, t, 32);
      if t > h {
        NoWindow(x, h + 1, t, 32);
      } else {
        Pow2Monotone(t + 1, h + 1);
      }
    }
  }

  // It fills every position up to the highest bit exactly when no gap is 32 bits long.
  lemma SmearedFills(y: nat, x: nat)
    requires x >= 1 && Smeared(y, x, 32)
    ensures y == Pow2(Log2(x) + 1) - 1 <==> NoLongGap(x)
  {
    var h := Log2(x);
    Log2Bounds(x);
    if y == Pow2(h + 1) - 1 {
      forall i: nat | i <= h ensures Window(x, i, 32) {
        OnesBits(h + 1, i);
        assert Bit(y, i) <==> Window(x, i, 32);
      }
    }
    if NoLongGap(x) {
      forall i: nat ensures Bit(y, i) == Bit(Pow2(h + 1) - 1, i) {
        OnesBits(h + 1, i);
        assert Bit(y, i) <==> Window(x, i, 32);
        if i > h {
          NoWindow(x, h + 1, i, 32);
        }
      }
      BitsDetermine(y, Pow2(h + 1) - 1);
    }
  }

  lemma LeastIsNext(input: nat)
    requires input >= 2
    ensures LeastPow2(Pow2(Log2(input - 1) + 1), input)
  {
    var h := Log2(input - 1);
    Log2Bounds(input - 1);
    Pow2IsPow2(h + 1);
    forall s: nat | IsPow2(s) && input <= s ensures Pow2(h + 1) <= s {
      var k := IsPow2Exponent(s);
      if k <= h {
        Pow2Monotone(k, h);
      } else {
        Pow2Monotone(h + 1, k);
      }
    }
  }

  // The inputs for which the 32-bit smearing suffices in 64-bit arithmetic.
  ghost predicate Roundable(input: nat) {
    input <= 1 || (input <= 0x8000_0000_0000_0000 && NoLongGap(input - 1))
  }

  method GetFirstPow2Of(input: nat) returns (r: nat)
    requires input < WORD_LIMIT
    ensures r == FirstPow2(input)
    ensures LeastPow2(r, if input == 0 then 1 else input) <==> Roundable(input)
  {
    FirstPow2IsLeast(input);
    if input <= 1 {
      return 1;
    }
    var x := input - 1;
    x := BitOr(x, ShiftRight(x, 1));
    x := BitOr(x, ShiftRight(x, 2));
    x := BitOr(x, ShiftRight(x, 4));
    x := BitOr(x, ShiftRight(x, 8));
    x := BitOr(x, ShiftRight(x, 16));
    assert x == Smear(input - 1);
    r := (x + 1) % 0x1_0000_0000_0000_0000;
  }

  function FirstPow2(input: nat): nat {
    if input <= 1 then 1 else (Smear(input - 1) + 1) % 0x1_0000_0000_0000_0000
  }

  lemma LeastIsUnique(r: nat, t: nat, input: nat)
    requires LeastPow2(t, input)
    ensures LeastPow2(r, input) <==> r == t
  {
  }

  // The sum after smearing: below 2^63 it cannot wrap, above it the full sum wraps to 0.
  lemma WrappedSum(y: nat, h: nat, input: nat)
    requires 2 <= input < WORD_LIMIT && y < Pow2(h + 1) && Pow2(h) <= input - 1 < Pow2(h + 1)
    ensures (y + 1) % 0x1_0000_0000_0000_0000 == Pow2(h + 1) <==> input <= 0x8000_0000_0000_0000 && y == Pow2(h + 1) - 1
  {
    Pow2Values();
    if input <= 0x8000_0000_0000_0000 {
      if h >= 63 {
        Pow2Monotone(63, h);
      }
      Pow2Monotone(h + 1, 63);
    } else {
      if h <= 62 {
        Pow2Monotone(h + 1, 63);
      }
      Pow2Monotone(64, h + 1);
    }
  }

  lemma SmearedSum(y: nat, input: nat)
    requires 2 <= input < WORD_LIMIT && Smeared(y, input - 1, 32)
    ensures (y + 1) % 0x1_0000_0000_0000_0000 == Pow2(Log2(input - 1) + 1) <==> Roundable(input)
  {
    var x := input - 1;
    Log2Bounds(x);
    SmearedFills(y, x);
    SmearedBelow(y, x);
    WrappedSum(y, Log2(x), input);
  }

  lemma FirstPow2Sum(input: nat)
    requires 2 <= input < WORD_LIMIT
    ensures FirstPow2(input) == Pow2(Log2(input - 1) + 1) <==> Roundable(input)
  {
    SmearSees32(input - 1);
    SmearedSum(Smear(input - 1), input);
  }

  // The result is the least power of two not below the input exactly for roundable inputs.
  lemma FirstPow2IsLeast(input: nat)
    requires input < WORD_LIMIT
    ensures LeastPow2(FirstPow2(input), if input == 0 then 1 else input) <==> Roundable(input)
  {
    if input <= 1 {
      assert LeastPow2(1, 1);
    } else {
      LeastIsNext(input);
      FirstPow2Sum(input);
      LeastIsUnique(FirstPow2(input), Pow2(Log2(input - 1) + 1), input);
    }
  }

  // Every input up to 2^32 is roundable.
  lemma RoundableUpTo32Bits(input: nat)
    requires input <= 0x1_0000_0000
    ensures Roundable(input)
  {
    if input > 1 {
      var x := input - 1;
      Log2Bounds(x);
      Pow2Values();
      if Log2(x) >= 32 {
        Pow2Monotone(32, Log2(x));
      }
      forall i: nat | i <= Log2(x) ensures Window(x, i, 32) {
        WindowBit(x, i, 32, Log2(x));
      }
    }
  }

  lemma {:induction false} BitOfPow2(k: nat, i: nat)
    ensures Bit(Pow2(k), i) <==> i == k
    decreases k
  {
    if k == 0 {
      if i > 0 {
        NoBits(i - 1);
      }
    } else if i > 0 {
      BitOfPow2(k - 1, i - 1);
    }
  }

  lemma {:induction false} EmptyWindow(k: nat, i: nat, n: nat)
    requires i + n <= k
    ensures !Window(Pow2(k), i, n)
    decreases n
  {
    if n > 0 {
      BitOfPow2(k, i);
      EmptyWindow(k, i + 1, n - 1);
    }
  }

  // The first input for which the rounding goes wrong.
  lemma NotRoundable()
    ensures !Roundable(0x1_0000_0001)
    ensures !LeastPow2(FirstPow2(0x1_0000_0001), 0x1_0000_0001)
  {
    Pow2Values();
    EmptyWindow(32, 0, 32);
    assert !NoLongGap(Pow2(32)) by {
      assert 0 <= Log2(Pow2(32)) && !Window(Pow2(32), 0, 32);
    }
    FirstPow2IsLeast(0x1_0000_0001);
  }

  // ---- Bins ----

  const MIN_SIZE_CLASS: nat := 16
  const BIN_COUNT: nat := 8
  const LARGEST_SIZE_CLASS: nat := 2048

  lemma Log2Of16()
    ensures Log2(MIN_SIZE_CLASS) == 4
  {
    Pow2Values();
    Log2Unique(16, 4);
  }

  // get_pow2_bin_index_from_size for minimum 16 and highest index 7, in 64-bit arithmetic.
  function BinIndex(size: nat): nat
    requires size < WORD_LIMIT
  {
    Log2Of16();
    var index := Log2Clz(size) - Log2(MIN_SIZE_CLASS);
    var wrapped := if index < 0 then index + WORD_LIMIT else index;
    if wrapped > 7 then 7 else wrapped
  }

  // adjust_size_for_small_object_bin
  function AdjustSize(size: nat): nat {
    var adjusted := FirstPow2(size);
    if adjusted < MIN_SIZE_CLASS then MIN_SIZE_CLASS else adjusted
  }

  // Size class of bin i: what heap creation assigns by doubling.
  function BinSizeClass(i: nat): (r: nat)
    ensures r >= MIN_SIZE_CLASS
  {
    if i == 0 then MIN_SIZE_CLASS else 2 * BinSizeClass(i - 1)
  }

  lemma {:induction false} BinSizeClassPow2(i: nat)
    ensures BinSizeClass(i) == Pow2(i + 4)
  {
    Pow2Values();
    if i > 0 {
      BinSizeClassPow2(i - 1);
    }
  }

  // The bin computed from a bin's size class is that bin.
  lemma BinOfSizeClass(i: nat)
    requires i < BIN_COUNT
    ensures BinSizeClass(i) < WORD_LIMIT && BinIndex(BinSizeClass(i)) == i
  {
    BinSizeClassPow2(i);
    Pow2Values();
    Pow2Monotone(i + 4, 32);
    Log2Unique(Pow2(i + 4), i + 4);
    Log2Unique(16, 4);
    Log2FormsAgree(Pow2(i + 4));
  }

  // Every small request goes to the bin with the smallest size class that fits it.
  lemma SmallRequestBin(size: nat) returns (i: nat)
    requires size <= LARGEST_SIZE_CLASS
    ensures i < BIN_COUNT && AdjustSize(size) == BinSizeClass(i) && BinIndex(AdjustSize(size)) == i
    ensures size <= BinSizeClass(i)
    ensures forall j: nat :: j < i ==> BinSizeClass(j) < size
  {
    RoundableUpTo32Bits(size);
    FirstPow2IsLeast(size);
    i := BinOfPow2(FirstPow2(size), size);
    BinOfSizeClass(i);
  }

  // The exponents of the bins: 4 for everything up to 16, at most 11.
  lemma ExponentInBins(k: nat, size: nat)
    requires size <= LARGEST_SIZE_CLASS && LeastPow2(Pow2(k), if size == 0 then 1 else size)
    ensures k <= 11 && (k < 4 ==> size <= 8)
  {
    Pow2Values();
    Pow2Of8And11();
    Pow2IsPow2(11);
    if k > 11 {
      Pow2Monotone(12, k);
    }
    if k < 4 {
      Pow2Monotone(k, 3);
    }
  }

  lemma Pow2Of8And11()
    ensures Pow2(3) == 8 && Pow2(8) == 256 && Pow2(11) == 2048
  {
    assert Pow2(4) == 16;
  }

  // No smaller power of two holds a size whose least one is 2^k.
  lemma SmallerBinsTooSmall(k: nat, size: nat, j: nat)
    requires LeastPow2(Pow2(k), if size == 0 then 1 else size) && j + 4 < k
    ensures BinSizeClass(j) < size
  {
    BinSizeClassPow2(j);
    Pow2IsPow2(j + 4);
    Pow2Monotone(j + 5, k);
  }

  lemma BinOfPow2(r: nat, size: nat) returns (i: nat)
    requires size <= LARGEST_SIZE_CLASS && LeastPow2(r, if size == 0 then 1 else size)
    ensures i < BIN_COUNT && size <= BinSizeClass(i)
    ensures BinSizeClass(i) == if r < MIN_SIZE_CLASS then MIN_SIZE_CLASS else r
    ensures forall j: nat :: j < i ==> BinSizeClass(j) < size
  {
    var k := IsPow2Exponent(r);
    ExponentInBins(k, size);
    Pow2Values();
    i := if k < 4 then 0 else k - 4;
    BinSizeClassPow2(i);
    if k < 4 {
      Pow2Monotone(k + 1, 4);
    } else {
      Pow2Monotone(4, k);
    }
    forall j: nat | j < i ensures BinSizeClass(j) < size {
      SmallerBinsTooSmall(k, size, j);
    }
  }

  // ---- get_pow2_bin_index_from_size on any size ----

  // Bin i is the smallest that holds the size.
  ghost predicate SmallestBin(size: nat, i: nat) {
    i < BIN_COUNT && size <= BinSizeClass(i) && forall j: nat :: j < i ==> BinSizeClass(j) < size
  }

  // From 16 on the index is the position of the highest bit, so the size is rounded down.
  lemma IndexRoundsDown(size: nat)
    requires MIN_SIZE_CLASS <= size <= LARGEST_SIZE_CLASS
    ensures BinIndex(size) < BIN_COUNT && BinSizeClass(BinIndex(size)) <= size < 2 * BinSizeClass(BinIndex(size))
    ensures Log2(size) == BinIndex(size) + 4
  {
    Pow2Values();
    Pow2Of8And11();
    Log2FormsAgree(size);
    Log2Of16();
    var h := Log2(size);
    if h < 4 {
      Pow2Monotone(h + 1, 4);
    }
    if h > 11 {
      Pow2Monotone(12, h);
    }
    BinSizeClassPow2(h - 4);
  }

  // Below 16 the subtraction wraps, and the clamp turns that into the last bin.
  lemma IndexBelow16(size: nat)
    requires 1 <= size < MIN_SIZE_CLASS
    ensures BinIndex(size) == 7
  {
    Pow2Values();
    Log2FormsAgree(size);
    Log2Of16();
    if Log2(size) >= 4 {
      Pow2Monotone(4, Log2(size));
    }
  }

  lemma SizeClassIsPow2(size: nat, i: nat)
    requires i < BIN_COUNT && BinSizeClass(i) <= size < 2 * BinSizeClass(i)
    ensures IsPow2(size) <==> size == BinSizeClass(i)
  {
    BinSizeClassPow2(i);
    Pow2IsPow2(i + 4);
    if IsPow2(size) {
      var k := IsPow2Exponent(size);
      if k < i + 4 {
        Pow2Monotone(k + 1, i + 4);
      } else if k > i + 4 {
        Pow2Monotone(i + 5, k);
      }
    }
  }

  // The index names the smallest bin that holds the size exactly for the powers of two from 16 on.
  lemma BinIndexExact(size: nat)
    requires 1 <= size <= LARGEST_SIZE_CLASS
    ensures SmallestBin(size, BinIndex(size)) <==> size >= MIN_SIZE_CLASS && IsPow2(size)
  {
    if size < MIN_SIZE_CLASS {
      IndexBelow16(size);
      FirstBinHolds(size, 7);
    } else {
      IndexRoundsDown(size);
      SizeClassIsPow2(size, BinIndex(size));
      OwnClassIsSmallest(size, BinIndex(size));
    }
  }

  lemma FirstBinHolds(size: nat, i: nat)
    requires size <= MIN_SIZE_CLASS && 0 < i
    ensures !SmallestBin(size, i)
  {
    assert BinSizeClass(0) >= size;
  }

  lemma OwnClassIsSmallest(size: nat, i: nat)
    requires i < BIN_COUNT && BinSizeClass(i) <= size
    ensures SmallestBin(size, i) <==> size == BinSizeClass(i)
  {
    forall j: nat | j < i ensures BinSizeClass(j) < BinSizeClass(i) {
      BinSizeClassPow2(i);
      BinSizeClassPow2(j);
      Pow2Monotone(j + 5, i + 4);
    }
  }

  // The size that the comment above the function gives as its example.
  lemma IndexOf96()
    ensures BinIndex(96) == 2 && !SmallestBin(96, 2) && SmallestBin(96, 3)
  {
    BinClasses();
    BinSizeClassPow2(2);
    BinSizeClassPow2(3);
    Log2Unique(96, 6);
    IndexRoundsDown(96);
  }

  lemma BinClasses()
    ensures BinSizeClass(0) == 16 && BinSizeClass(1) == 32 && BinSizeClass(2) == 64 && BinSizeClass(3) == 128
  {
  }
}
