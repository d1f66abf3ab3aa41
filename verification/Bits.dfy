// Bit operations on naturals, and the power-of-two, logarithm and mask tricks built on them.
module Bits {
  import opened Arith
  import opened Words

  function Pow2(k: nat): (r: nat)
    ensures r >= 1
  {
    if k == 0 then 1 else 2 * Pow2(k - 1)
  }

  function Bit(a: nat, i: nat): bool {
    if i == 0 then a % 2 == 1 else Bit(a / 2, i - 1)
  }

  function BitAnd(a: nat, b: nat): nat {
    if a == 0 || b == 0 then 0
    else (if a % 2 == 1 && b % 2 == 1 then 1 else 0) + 2 * BitAnd(a / 2, b / 2)
  }

  function BitOr(a: nat, b: nat): nat {
    if a == 0 then b else if b == 0 then a
    else (if a % 2 == 1 || b % 2 == 1 then 1 else 0) + 2 * BitOr(a / 2, b / 2)
  }

  function ShiftRight(a: nat, k: nat): nat {
    if k == 0 then a else ShiftRight(a / 2, k - 1)
  }

  // All ones in the lowest w bits, minus a.
  function Complement(a: nat, w: nat): nat
    requires a < Pow2(w)
  {
    Pow2(w) - 1 - a
  }

  predicate IsPow2(n: nat) {
    n == 1 || (n > 0 && n % 2 == 0 && IsPow2(n / 2))
  }

  lemma {:induction false} IsPow2Exponent(n: nat) returns (k: nat)
    requires IsPow2(n)
    ensures n == Pow2(k)
  {
    if n == 1 {
      k := 0;
    } else {
      k := IsPow2Exponent(n / 2);
      k := k + 1;
    }
  }

  lemma {:induction false} Pow2IsPow2(k: nat)
    ensures IsPow2(Pow2(k))
  {
    if k > 0 {
      Pow2IsPow2(k - 1);
    }
  }

  lemma {:induction false} Pow2Monotone(j: nat, k: nat)
    requires j <= k
    ensures Pow2(j) <= Pow2(k)
    decreases k
  {
    if j < k {
      Pow2Monotone(j, k - 1);
    }
  }

  lemma Pow2Values()
    ensures Pow2(4) == 16 && Pow2(32) == 0x1_0000_0000 && Pow2(63) == 0x8000_0000_0000_0000 && Pow2(64) == WORD_LIMIT
  {
    assert Pow2(8) == 0x100;
    assert Pow2(16) == 0x1_0000;
    assert Pow2(24) == 0x100_0000;
    assert Pow2(32) == 0x1_0000_0000;
    assert Pow2(40) == 0x100_0000_0000;
    assert Pow2(48) == 0x1_0000_0000_0000;
    assert Pow2(56) == 0x100_0000_0000_0000;
  }

  // ---- is_power_of_two ----

  predicate IsPowerOfTwo(input: nat) {
    input != 0 && BitAnd(input, input - 1) == 0
  }

  lemma {:induction false} AndSelf(a: nat)
    ensures BitAnd(a, a) == a
  {
    if a > 0 {
      AndSelf(a / 2);
    }
  }

  // The bit trick recognises exactly the powers of two.
  lemma {:induction false} IsPowerOfTwoCorrect(input: nat)
    ensures IsPowerOfTwo(input) <==> IsPow2(input)
  {
    if input > 1 {
      if input % 2 == 1 {
        assert (input - 1) / 2 == input / 2;
        AndSelf(input / 2);
      } else {
        assert (input - 1) / 2 == input / 2 - 1;
        IsPowerOfTwoCorrect(input / 2);
      }
    }
  }

  // ---- The page mask ----

  lemma {:induction false} AndOnes(a: nat, w: nat)
    requires a < Pow2(w)
    ensures BitAnd(a, Pow2(w) - 1) == a
  {
    if a > 0 {
      assert (Pow2(w) - 1) / 2 == Pow2(w - 1) - 1 && (Pow2(w) - 1) % 2 == 1;
      AndOnes(a / 2, w - 1);
    }
  }

  lemma {:induction false} AndComplement(a: nat, w: nat)
    requires a < Pow2(w)
    ensures BitAnd(a, Complement(a, w)) == 0
  {
    if a > 0 {
      assert Complement(a, w) / 2 == Complement(a / 2, w - 1);
      AndComplement(a / 2, w - 1);
    }
  }

  lemma ModDouble(p: nat, h: nat)
    requires h > 0
    ensures p % (2 * h) == 2 * ((p / 2) % h) + p % 2
  {
    var q, r := (p / 2) / h, (p / 2) % h;
    assert p / 2 == q * h + r;
    assert p == q * (2 * h) + (2 * r + p % 2);
    QuotientIs(p, q, 2 * r + p % 2, 2 * h);
  }

  lemma AndEven(p: nat, d: nat)
    ensures BitAnd(p, 2 * d) == 2 * BitAnd(p / 2, d)
  {
    assert 2 * d / 2 == d && 2 * d % 2 == 0;
  }

  lemma {:induction false} MaskFloor(p: nat, ps: nat, w: nat)
    requires IsPow2(ps) && p < Pow2(w) && ps <= Pow2(w)
    ensures BitAnd(p, Complement(ps - 1, w)) == p - p % ps
    decreases ps
  {
    if ps == 1 {
      AndOnes(p, w);
      assert p % 1 == 0;
    } else {
      var h, c := ps / 2, Complement(ps - 1, w);
      assert w > 0;
      var d := Complement(h - 1, w - 1);
      assert c == 2 * d;
      MaskFloor(p / 2, h, w - 1);
      ModDouble(p, h);
      AndEven(p, d);
    }
  }

  lemma {:induction false} MaskLowestBit(ps: nat, w: nat)
    requires 0 < ps <= Pow2(w) && BitAnd(ps, Complement(ps - 1, w)) == ps
    ensures IsPow2(ps)
    decreases ps
  {
    if ps > 1 {
      var h, c := ps / 2, Complement(ps - 1, w);
      assert w > 0;
      if ps % 2 == 1 {
        assert c / 2 == Complement(h, w - 1);
        AndComplement(h, w - 1);
      } else {
        assert c == 2 * Complement(h - 1, w - 1);
        MaskLowestBit(h, w - 1);
      }
    }
  }

  // The address that the constant-time look-up computes: ptr & ~(pageSize - 1) in 64 bits.
  function MaskedPage(ptr: nat, pageSize: nat): nat
    requires 0 < pageSize <= WORD_LIMIT
  {
    Pow2Values();
    BitAnd(ptr, Complement(pageSize - 1, 64))
  }

  // The mask rounds every address down to a page boundary exactly when the page size is a power of two.
  lemma MaskIsFloor(pageSize: nat)
    requires 0 < pageSize < WORD_LIMIT
    ensures (forall ptr: nat :: ptr < WORD_LIMIT ==> MaskedPage(ptr, pageSize) == ptr - ptr % pageSize)
      <==> IsPow2(pageSize)
  {
    Pow2Values();
    if IsPow2(pageSize) {
      forall ptr: nat | ptr < WORD_LIMIT ensures MaskedPage(ptr, pageSize) == ptr - ptr % pageSize {
        MaskFloor(ptr, pageSize, 64);
      }
    } else if MaskedPage(pageSize, pageSize) == pageSize {
      MaskLowestBit(pageSize, 64);
    } else {
      assert pageSize % pageSize == 0;
    }
  }
}
