/**
  Binary32 arithmetic on integers: conversion to `float` and `float` subtraction, rounding to 24
  significant bits, ties to even (sections 4.3.1 and 5.4.1 of IEEE 754-2019).  Every value the
  adapter forms is an integer below 2^32, far inside the exponent range.
 */
module Binary32 {

  const SIGNIFICANDS: nat := 0x100_0000   // 2^24

  /** Spacing of the floats around n: the power of two that leaves 24 significant bits. */
  function Ulp(n: nat): (u: nat)
    ensures u >= 1
    ensures n < SIGNIFICANDS * u
    ensures u > 1 ==> SIGNIFICANDS * u <= 2 * n
  {
    if n < SIGNIFICANDS then 1 else 2 * Ulp(n / 2)
  }

  /** The multiple of u nearest to n; a tie goes to the even multiple. */
  function RoundTo(n: nat, u: nat): (r: nat)
    requires u >= 1
  {
    var q, rest := n / u, n % u;
    if 2 * rest < u || (2 * rest == u && q % 2 == 0) then q * u else (q + 1) * u
  }

  function RoundNat(n: nat): (r: nat) {
    RoundTo(n, Ulp(n))
  }

  /** Rounding of any integer; round-to-nearest is symmetric in sign. */
  function Round(n: int): (r: int) {
    if n < 0 then 0 - RoundNat(-n) else RoundNat(n)
  }

  /** The integers that are binary32 values. */
  ghost predicate IsFloat(n: int) {
    var m := if n < 0 then -n else n;
    m % Ulp(m) == 0
  }

  /** `a - b` on floats. */
  function Subtract(a: int, b: int): (r: int) {
    Round(a - b)
  }

  // ---- Multiples ---------------------------------------------------------------------------

  lemma Split(n: nat, u: nat)
    requires u >= 1
    ensures n == (n / u) * u + n % u
    ensures (n / u + 1) * u == (n / u) * u + u
  {
  }

  lemma Scale(a: nat, b: nat, u: nat)
    requires a <= b
    ensures a * u <= b * u
  {
  }

  lemma NearestTo(n: nat, u: nat)
    requires u >= 1
    ensures var r := RoundTo(n, u); 2 * r <= 2 * n + u && 2 * n <= 2 * r + u
  {
  }

  lemma DivideMonotone(m: nat, n: nat, u: nat)
    requires u >= 1 && m <= n
    ensures m / u <= n / u
  {
    if m / u > n / u {
      assert (m / u) * u >= (n / u + 1) * u;
      Split(m, u);
      Split(n, u);
      assert false;
    }
  }

  lemma RoundToChoice(n: nat, u: nat, lo: nat)
    requires u >= 1 && lo == (n / u) * u
    ensures lo <= n < lo + u && n - lo == n % u
    ensures RoundTo(n, u) == if 2 * (n - lo) < u || (2 * (n - lo) == u && (n / u) % 2 == 0) then lo else lo + u
  {
    Split(n, u);
  }

  lemma PickMonotone(a: nat, b: nat, u: nat, lo: nat, even: bool)
    requires a <= b < u
    ensures (if 2 * a < u || (2 * a == u && even) then lo else lo + u) <= (if 2 * b < u || (2 * b == u && even) then lo else lo + u)
  {
  }

  lemma SameCell(m: nat, n: nat, u: nat)
    requires u >= 1 && m <= n && m / u == n / u
    ensures RoundTo(m, u) <= RoundTo(n, u)
  {
    var lo, even := (m / u) * u, (m / u) % 2 == 0;
    RoundToChoice(m, u, lo);
    RoundToChoice(n, u, lo);
    PickMonotone(m - lo, n - lo, u, lo, even);
  }

  lemma NextCell(i: nat, j: nat, u: nat)
    requires i < j
    ensures i * u + u <= j * u
  {
    Scale(i + 1, j, u);
    assert (i + 1) * u == i * u + u;
  }

  lemma LaterCell(m: nat, n: nat, u: nat)
    requires u >= 1 && m / u < n / u
    ensures RoundTo(m, u) <= RoundTo(n, u)
  {
    var a, b := (m / u) * u, (n / u) * u;
    NextCell(m / u, n / u, u);
    RoundToChoice(m, u, a);
    RoundToChoice(n, u, b);
  }

  lemma RoundToMonotone(m: nat, n: nat, u: nat)
    requires u >= 1 && m <= n
    ensures RoundTo(m, u) <= RoundTo(n, u)
  {
    DivideMonotone(m, n, u);
    if m / u < n / u {
      LaterCell(m, n, u);
    } else {
      SameCell(m, n, u);
    }
  }

  lemma RoundToMultiple(k: nat, u: nat)
    requires u >= 1
    ensures (k * u) % u == 0 && (k * u) / u == k
    ensures RoundTo(k * u, u) == k * u
  {
    Split(k * u, u);
    var q := (k * u) / u;
    if q > k {
    } else if q < k {
    }
  }

  // ---- Spacing -------------------------------------------------------------------------------

  lemma {:induction false} UlpDoubles(m: nat, n: nat)
    requires m <= n
    ensures Ulp(m) == Ulp(n) || 2 * Ulp(m) <= Ulp(n)
    decreases n
  {
    if m >= SIGNIFICANDS {
      UlpDoubles(m / 2, n / 2);
    }
  }

  /** The spacing is the only one that gives its number 24 significant bits. */
  lemma UlpUnique(m: nat, n: nat)
    requires var u := Ulp(n); m < SIGNIFICANDS * u && (u > 1 ==> SIGNIFICANDS * u <= 2 * m)
    ensures Ulp(m) == Ulp(n)
  {
  }

  // ---- Rounding is monotone and exact on floats -----------------------------------------------

  lemma RoundNatBelow(n: nat)
    ensures var u := Ulp(n);
      RoundNat(n) <= SIGNIFICANDS * u && (u > 1 ==> SIGNIFICANDS * u <= 2 * RoundNat(n))
  {
    var u := Ulp(n);
    RoundToMultiple(SIGNIFICANDS, u);
    RoundToMonotone(n, SIGNIFICANDS * u, u);
    if u > 1 {
      RoundToMultiple(SIGNIFICANDS / 2, u);
      RoundToMonotone((SIGNIFICANDS / 2) * u, n, u);
    }
  }

  lemma RoundNatMonotone(m: nat, n: nat)
    requires m <= n
    ensures RoundNat(m) <= RoundNat(n)
  {
    UlpDoubles(m, n);
    if Ulp(m) == Ulp(n) {
      RoundToMonotone(m, n, Ulp(m));
    } else {
      RoundNatBelow(m);
      RoundNatBelow(n);
    }
  }

  lemma RoundMonotone(m: int, n: int)
    requires m <= n
    ensures Round(m) <= Round(n)
  {
    if 0 <= m {
      RoundNatMonotone(m, n);
    } else if n < 0 {
      RoundNatMonotone(-n, -m);
    }
  }

  lemma FloatFixed(n: nat)
    requires IsFloat(n)
    ensures Round(n) == n
  {
  }

  lemma TopIsFloat(n: nat)
    ensures IsFloat(SIGNIFICANDS * Ulp(n))
  {
    UlpOfTop(n);
    RoundToMultiple(SIGNIFICANDS / 2, 2 * Ulp(n));
    assert SIGNIFICANDS * Ulp(n) == (SIGNIFICANDS / 2) * (2 * Ulp(n));
  }

  lemma MultipleIsFloat(k: nat, n: nat)
    requires var u := Ulp(n); k * u < SIGNIFICANDS * u && (u > 1 ==> SIGNIFICANDS * u <= 2 * (k * u))
    ensures IsFloat(k * Ulp(n))
  {
    UlpUnique(k * Ulp(n), n);
    RoundToMultiple(k, Ulp(n));
  }

  lemma RoundToIsMultiple(n: nat, u: nat) returns (k: nat)
    requires u >= 1
    ensures RoundTo(n, u) == k * u
  {
    k := if RoundTo(n, u) == (n / u) * u then n / u else n / u + 1;
  }

  /** Rounding always lands on a float. */
  lemma RoundIsFloat(n: nat)
    ensures IsFloat(RoundNat(n))
  {
    RoundNatBelow(n);
    var k := RoundToIsMultiple(n, Ulp(n));
    if RoundNat(n) < SIGNIFICANDS * Ulp(n) {
      MultipleIsFloat(k, n);
    } else {
      TopIsFloat(n);
    }
  }

  lemma {:induction false} UlpOfTop(n: nat)
    ensures Ulp(SIGNIFICANDS * Ulp(n)) == 2 * Ulp(n)
  {
    var top := SIGNIFICANDS * Ulp(n);
    if n < SIGNIFICANDS {
    } else {
      UlpOfTop(n / 2);
    }
  }

  /** A multiple of u above q * u is above it by at least u. */
  lemma NextMultiple(f: nat, u: nat, q: nat)
    requires u >= 1 && f % u == 0 && q * u < f
    ensures q * u + u <= f
  {
    Split(f, u);
    if f / u <= q {
      Scale(f / u, q, u);
    } else {
      Scale(q + 1, f / u, u);
    }
  }

  lemma CellTop(n: nat)
    ensures var u := Ulp(n); (n / u) * u + u <= SIGNIFICANDS * u
  {
    var u := Ulp(n);
    RoundToMultiple(SIGNIFICANDS, u);
    NextMultiple(SIGNIFICANDS * u, u, n / u);
  }

  lemma MultipleBelow(k: nat, n: nat, u: nat)
    requires u >= 1 && k * u <= n
    ensures k * u <= (n / u) * u
  {
    DivideMonotone(k * u, n, u);
  }

  lemma NoFloatBetween(n: nat, f: nat)
    requires IsFloat(f)
    ensures var u := Ulp(n); f <= (n / u) * u || (n / u) * u + u <= f
  {
    var u := Ulp(n);
    var q := n / u;
    if q * u < f {
      CellTop(n);
      if u > 1 {
        MultipleBelow(SIGNIFICANDS / 2, n, u);
      }
      if f < SIGNIFICANDS * u {
        UlpUnique(f, n);
        NextMultiple(f, u, q);
      }
    }
  }

  /** The two floats around n, one of which Round picks; f is not strictly between them. */
  lemma FloatCell(n: nat, f: nat) returns (lo: nat, even: bool)
    requires IsFloat(f)
    ensures var u := Ulp(n);
      && lo <= n < lo + u && n - lo == n % u && (f <= lo || lo + u <= f)
      && RoundNat(n) == if 2 * (n - lo) < u || (2 * (n - lo) == u && even) then lo else lo + u
  {
    lo, even := (n / Ulp(n)) * Ulp(n), (n / Ulp(n)) % 2 == 0;
    NoFloatBetween(n, f);
    RoundToChoice(n, Ulp(n), lo);
  }

  /**
    Round(n) is the float nearest to n, and of two equally near ones it is the even one: the
    definition of round to nearest, ties to even.
   */
  lemma RoundNearest(n: nat, f: nat)
    requires IsFloat(f)
    ensures Distance(n, Round(n)) <= Distance(n, f)
    ensures Distance(n, Round(n)) == Distance(n, f) && f != Round(n) ==> (Round(n) / Ulp(n)) % 2 == 0
  {
    var lo, even := FloatCell(n, f);
    NearestPick(n, lo, Ulp(n), even, f, RoundNat(n));
    if Distance(n, Round(n)) == Distance(n, f) && f != Round(n) {
      TieIsEven(n, Ulp(n));
    }
  }

  function Distance(a: int, b: int): nat {
    if a < b then b - a else a - b
  }

  lemma NearestPick(n: nat, lo: nat, u: nat, even: bool, f: nat, r: nat)
    requires lo <= n < lo + u && (f <= lo || lo + u <= f)
    requires r == if 2 * (n - lo) < u || (2 * (n - lo) == u && even) then lo else lo + u
    ensures Distance(n, r) <= Distance(n, f)
    ensures Distance(n, r) == Distance(n, f) && f != r ==> 2 * (n - lo) == u
  {
  }

  lemma TieIsEven(n: nat, u: nat)
    requires u >= 1 && 2 * (n % u) == u
    ensures (RoundTo(n, u) / u) % 2 == 0
  {
    RoundToMultiple(n / u, u);
    RoundToMultiple(n / u + 1, u);
  }

  // ---- The flipped Y axis ----------------------------------------------------------------------

  /** `mDeviceInfo.maxY - static_cast<float>(packet.pkY)`, with maxY the float of the extent. */
  function FlipY(extent: int, pkY: int): (y: int) {
    Subtract(Round(extent), Round(pkY))
  }

  /** The reported y stays on the tablet. */
  lemma FlipInRange(extent: nat, pkY: nat)
    requires pkY <= extent
    ensures 0 <= FlipY(extent, pkY) <= Round(extent)
  {
    RoundMonotone(pkY, extent);
    RoundMonotone(Round(extent) - Round(pkY), Round(extent));
    RoundIsFloat(extent);
    FloatFixed(Round(extent));
  }

  lemma RoundNearestInt(n: nat, f: int)
    requires IsFloat(f)
    ensures Distance(n, Round(n)) <= Distance(n, f)
  {
    if f >= 0 {
      RoundNearest(n, f);
    } else {
      RoundNearest(n, 0);
    }
  }

  /** The reported y is a float, and no float is nearer to the difference of the two floats subtracted. */
  lemma FlipNearest(extent: nat, pkY: nat, f: int)
    requires pkY <= extent && IsFloat(f)
    ensures IsFloat(FlipY(extent, pkY))
    ensures Distance(Round(extent) - Round(pkY), FlipY(extent, pkY)) <= Distance(Round(extent) - Round(pkY), f)
  {
    RoundMonotone(pkY, extent);
    RoundIsFloat(Round(extent) - Round(pkY));
    RoundNearestInt(Round(extent) - Round(pkY), f);
  }

  /** Rounding treats both signs alike. */
  lemma RoundSymmetric(n: int)
    ensures Round(-n) == -Round(n)
  {
  }

  /** Moving up the tablet never moves the reported point up the page. */
  lemma FlipAntitone(extent: int, pkY: int, pkY': int)
    requires pkY <= pkY'
    ensures FlipY(extent, pkY') <= FlipY(extent, pkY)
  {
    RoundMonotone(pkY, pkY');
    RoundMonotone(Round(extent) - Round(pkY'), Round(extent) - Round(pkY));
  }

  lemma RoundError(n: nat)
    ensures 2 * Distance(Round(n), n) <= Ulp(n)
  {
    NearestTo(n, Ulp(n));
  }

  lemma SmallerError(extent: nat, d: nat)
    requires d < SIGNIFICANDS * Ulp(extent) && d <= Round(extent)
    ensures 2 * Distance(Round(d), d) <= Ulp(extent)
  {
    RoundError(d);
    if d <= extent {
      UlpDoubles(d, extent);
    } else {
      UlpUnique(d, extent);
    }
  }

  lemma DifferenceError(extent: nat, d: nat)
    requires d <= Round(extent)
    ensures 2 * Distance(Round(d), d) <= Ulp(extent)
  {
    if d < SIGNIFICANDS * Ulp(extent) {
      SmallerError(extent, d);
    } else {
      RoundNatBelow(extent);
      RoundIsFloat(extent);
      FloatFixed(d);
    }
  }

  /** Three errors of at most half a unit add up. */
  lemma ErrorsAdd(a: int, a': int, b: int, b': int, r: int, u: nat)
    requires 2 * Distance(a', a) <= u && 2 * Distance(b', b) <= u && 2 * Distance(r, a' - b') <= u
    ensures 2 * Distance(r, a - b) <= 3 * u
  {
  }

  /** Three roundings cost at most one and a half units of the extent's spacing. */
  lemma FlipError(extent: nat, pkY: nat)
    requires pkY <= extent
    ensures 2 * Distance(FlipY(extent, pkY), extent - pkY) <= 3 * Ulp(extent)
  {
    RoundError(extent);
    RoundError(pkY);
    UlpDoubles(pkY, extent);
    RoundMonotone(pkY, extent);
    RoundMonotone(0, pkY);
    DifferenceError(extent, Round(extent) - Round(pkY));
    ErrorsAdd(extent, Round(extent), pkY, Round(pkY), FlipY(extent, pkY), Ulp(extent));
  }

  /** For every LONG extent the error is at most 192 units. */
  lemma FlipWithin192(extent: nat, pkY: nat)
    requires pkY <= extent < 0x8000_0000
    ensures Distance(FlipY(extent, pkY), extent - pkY) <= 192
  {
    FlipError(extent, pkY);
    UlpDoubles(extent, 0x7FFF_FFFF);
    assert Ulp(0xFF_FFFF) == 1 && Ulp(0x1FF_FFFF) == 2 && Ulp(0x3FF_FFFF) == 4;
    assert Ulp(0x7FF_FFFF) == 8 && Ulp(0xFFF_FFFF) == 16;
    assert Ulp(0x7FFF_FFFF) == 128;
  }

  lemma SmallIsFloat(n: nat)
    requires n <= SIGNIFICANDS
    ensures Round(n) == n
  {
  }

  lemma EvenProduct(k: nat, half: nat)
    ensures (k * (2 * half)) % 2 == 0
  {
    assert k * (2 * half) == 2 * (k * half);
  }

  lemma LargeFloatIsEven(n: nat)
    requires n >= SIGNIFICANDS && IsFloat(n)
    ensures n % 2 == 0
  {
    Split(n, Ulp(n));
    EvenProduct(n / Ulp(n), Ulp(n / 2));
  }

  lemma NonFloatMoves(n: nat)
    requires !IsFloat(n)
    ensures Round(n) != n
  {
    RoundIsFloat(n);
  }

  lemma LargeOddMoves(n: nat)
    requires n >= SIGNIFICANDS && n % 2 == 1
    ensures Round(n) != n
  {
    if IsFloat(n) {
      LargeFloatIsEven(n);
      assert false;
    }
    NonFloatMoves(n);
  }

  lemma FlipExact(extent: nat, pkY: nat)
    requires pkY <= extent <= SIGNIFICANDS
    ensures FlipY(extent, pkY) == extent - pkY
  {
    SmallIsFloat(extent);
    SmallIsFloat(pkY);
    SmallIsFloat(extent - pkY);
  }

  /** Beyond 2^24 some point is off: the result is a float, but an odd difference is not. */
  lemma FlipInexactAtOne(extent: nat)
    requires extent > SIGNIFICANDS && IsFloat(extent)
    ensures FlipY(extent, 1) != extent - 1
  {
    SmallIsFloat(1);
    FloatFixed(extent);
    LargeFloatIsEven(extent);
    LargeOddMoves(extent - 1);
  }

  lemma FlipInexactAtZero(extent: nat)
    requires !IsFloat(extent)
    ensures FlipY(extent, 0) != extent
  {
    SmallIsFloat(0);
    RoundIsFloat(extent);
    FloatFixed(Round(extent));
    NonFloatMoves(extent);
  }

  /** Where the flip is exact, flipping again returns the driver's coordinate. */
  lemma FlipTwice(extent: nat, pkY: nat)
    requires pkY <= extent <= SIGNIFICANDS
    ensures FlipY(extent, FlipY(extent, pkY)) == pkY
  {
    FlipExact(extent, pkY);
    FlipExact(extent, extent - pkY);
  }

  ghost predicate ExactAt(extent: nat, pkY: nat) {
    FlipY(extent, pkY) == extent - pkY
  }

  /** The flip is exact for every point of the tablet exactly when the extent is at most 2^24. */
  lemma FlipExactIff(extent: nat)
    ensures (forall pkY: nat :: pkY <= extent ==> ExactAt(extent, pkY)) <==> extent <= SIGNIFICANDS
  {
    if extent <= SIGNIFICANDS {
      forall pkY: nat | pkY <= extent ensures ExactAt(extent, pkY) {
        FlipExact(extent, pkY);
      }
    } else {
      if IsFloat(extent) {
        FlipInexactAtOne(extent);
        assert !ExactAt(extent, 1);
      } else {
        FlipInexactAtZero(extent);
        assert !ExactAt(extent, 0);
      }
    }
  }
}
