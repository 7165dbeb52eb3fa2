/** Bitwise operations on unbounded naturals, defined bit by bit. */
module Bits {

  function Pow2(k: nat): (p: nat)
    ensures p >= 1
  {
    if k == 0 then 1 else 2 * Pow2(k - 1)
  }

  predicate Bit(n: nat, k: nat) {
    if k == 0 then n % 2 == 1 else Bit(n / 2, k - 1)
  }

  function Xor(a: nat, b: nat): nat {
    if a == 0 && b == 0 then 0
    else 2 * Xor(a / 2, b / 2) + (if a % 2 != b % 2 then 1 else 0)
  }

  function Or(a: nat, b: nat): nat {
    if a == 0 && b == 0 then 0
    else 2 * Or(a / 2, b / 2) + (if a % 2 == 1 || b % 2 == 1 then 1 else 0)
  }

  function And(a: nat, b: nat): nat {
    if a == 0 then 0
    else 2 * And(a / 2, b / 2) + (if a % 2 == 1 && b % 2 == 1 then 1 else 0)
  }

  /** `a & ~b` */
  function AndNot(a: nat, b: nat): nat {
    if a == 0 then 0
    else 2 * AndNot(a / 2, b / 2) + (if a % 2 == 1 && b % 2 == 0 then 1 else 0)
  }

  lemma {:induction false} XorCancels(a: nat, b: nat)
    ensures Xor(Xor(a, b), b) == a
    ensures Xor(Xor(a, b), a) == b
  {
    if a != 0 || b != 0 {
      var x := Xor(a, b);
      assert x / 2 == Xor(a / 2, b / 2) && (x % 2 == 1 <==> a % 2 != b % 2);
      XorCancels(a / 2, b / 2);
    }
  }

  lemma {:induction false} XorBounded(a: nat, b: nat, k: nat)
    requires a < Pow2(k) && b < Pow2(k)
    ensures Xor(a, b) < Pow2(k)
  {
    if k > 0 {
      XorBounded(a / 2, b / 2, k - 1);
    }
  }

  lemma {:induction false} ZeroBit(k: nat)
    ensures !Bit(0, k)
  {
    if k > 0 {
      ZeroBit(k - 1);
    }
  }

  lemma {:induction false} OrBit(a: nat, b: nat, k: nat)
    ensures Bit(Or(a, b), k) <==> Bit(a, k) || Bit(b, k)
    decreases k
  {
    if a == 0 && b == 0 {
    } else if k > 0 {
      OrBit(a / 2, b / 2, k - 1);
    }
  }

  lemma {:induction false} AndNotBit(a: nat, b: nat, k: nat)
    ensures Bit(AndNot(a, b), k) <==> Bit(a, k) && !Bit(b, k)
    decreases k
  {
    if a == 0 {
      ZeroBit(k);
    } else if k > 0 {
      AndNotBit(a / 2, b / 2, k - 1);
    }
  }

  ghost predicate Covers(mask: nat, b: nat) {
    forall k: nat :: Bit(mask, k) ==> Bit(b, k)
  }

  lemma {:induction false} MaskCovers(mask: nat, b: nat, k: nat)
    requires And(mask, b) == mask && Bit(mask, k)
    ensures Bit(b, k)
    decreases k
  {
    if mask == 0 {
      ZeroBit(k);
    } else if k > 0 {
      MaskCovers(mask / 2, b / 2, k - 1);
    }
  }

  lemma {:induction false} CoversMask(mask: nat, b: nat)
    requires Covers(mask, b)
    ensures And(mask, b) == mask
    decreases mask
  {
    if mask > 0 {
      assert Bit(mask, 0) ==> Bit(b, 0);
      forall k: nat ensures Bit(mask / 2, k) ==> Bit(b / 2, k) {
        assert Bit(mask, k + 1) ==> Bit(b, k + 1);
      }
      CoversMask(mask / 2, b / 2);
    }
  }

  /** A mask test `(mask & b) == mask` asks for every bit of the mask. */
  lemma MaskTest(mask: nat, b: nat)
    ensures And(mask, b) == mask <==> Covers(mask, b)
  {
    if And(mask, b) == mask {
      forall k: nat | Bit(mask, k) ensures Bit(b, k) {
        MaskCovers(mask, b, k);
      }
    } else if Covers(mask, b) {
      CoversMask(mask, b);
    }
  }

  lemma {:induction false} Pow2Bit(c: nat, k: nat)
    ensures Bit(Pow2(c), k) <==> c == k
    decreases c
  {
    if c == 0 {
      if k > 0 {
        ZeroBit(k - 1);
      }
    } else if k > 0 {
      Pow2Bit(c - 1, k - 1);
    }
  }

  lemma {:induction false} AndZero(a: nat)
    ensures And(a, 0) == 0
  {
    if a > 0 {
      AndZero(a / 2);
    }
  }

  /** Testing a number against a single bit. */
  lemma {:induction false} AndPow2(a: nat, k: nat)
    ensures And(a, Pow2(k)) == if Bit(a, k) then Pow2(k) else 0
    decreases k
  {
    if a == 0 {
      ZeroBit(k);
    } else if k == 0 {
      AndZero(a / 2);
    } else {
      AndPow2(a / 2, k - 1);
    }
  }

  lemma {:induction false} Pow2Sum(a: nat, b: nat)
    ensures Pow2(a + b) == Pow2(a) * Pow2(b)
    decreases b
  {
    if b > 0 {
      Pow2Sum(a, b - 1);
    }
  }

  lemma {:induction false} Pow2Monotone(a: nat, b: nat)
    requires a < b
    ensures 2 * Pow2(a) <= Pow2(b)
    decreases b
  {
    if a < b - 1 {
      Pow2Monotone(a, b - 1);
    }
  }

  lemma Pow2Values()
    ensures Pow2(16) == 0x1_0000
    ensures Pow2(32) == 0x1_0000_0000
  {
    assert Pow2(4) == 0x10;
    assert Pow2(8) == 0x100;
    assert Pow2(12) == 0x1000;
    assert Pow2(20) == 0x10_0000;
    assert Pow2(24) == 0x100_0000;
  }

  lemma MultipleOfWord(k: nat)
    ensures (0x1_0000 * k) % 0x1_0000 == 0
  {
  }
}
