// Field elements of ntfe/ed25519/fe.c: ten signed limbs in radix 2^25.5.
//
// int32 and int64 are the C types: every operation on them carries the proof that it does not leave the type,
// so a method that verifies has no signed overflow. An arithmetic shift right by k is division by 2^k here
// (Dafny's division by a positive number rounds down), a shift left is multiplication by 2^k.
module Limbs {

  newtype int32 = x: int | -0x8000_0000 <= x < 0x8000_0000
  newtype int64 = x: int | -0x8000_0000_0000_0000 <= x < 0x8000_0000_0000_0000

  datatype Fe = Fe(h0: int32, h1: int32, h2: int32, h3: int32, h4: int32,
                   h5: int32, h6: int32, h7: int32, h8: int32, h9: int32)

  // Ten mathematical limbs, of any size.
  datatype Vec = Vec(h0: int, h1: int, h2: int, h3: int, h4: int, h5: int, h6: int, h7: int, h8: int, h9: int)

  ghost function Ints(f: Fe): Vec {
    Vec(f.h0 as int, f.h1 as int, f.h2 as int, f.h3 as int, f.h4 as int,
        f.h5 as int, f.h6 as int, f.h7 as int, f.h8 as int, f.h9 as int)
  }

  // Limb i has weight 2^ceil(25.5 i).
  ghost function Eval(v: Vec): int {
    v.h0 + 0x400_0000 * v.h1 + 0x8_0000_0000_0000 * v.h2 + 0x2000_0000_0000_0000_0000 * v.h3
        + 0x40_0000_0000_0000_0000_0000_0000 * v.h4
    + 0x1_0000_0000_0000_0000_0000_0000_0000_0000 * v.h5
    + 0x200_0000_0000_0000_0000_0000_0000_0000_0000_0000 * v.h6
    + 0x8_0000_0000_0000_0000_0000_0000_0000_0000_0000_0000_0000 * v.h7
    + 0x1000_0000_0000_0000_0000_0000_0000_0000_0000_0000_0000_0000_0000 * v.h8
    + 0x40_0000_0000_0000_0000_0000_0000_0000_0000_0000_0000_0000_0000_0000_0000 * v.h9
  }

  // Reached through a few recursive steps, so that the ten-term sum is written out only where ValueMeaning is called.
  ghost function Value(f: Fe): int {
    ValueSteps(f, 4)
  }

  ghost function ValueSteps(f: Fe, n: nat): int
    decreases n, f
  {
    if n == 0 then Eval(Ints(f)) else ValueSteps(f, n - 1)
  }

  lemma ValueMeaning(f: Fe)
    ensures Value(f) == Eval(Ints(f))
  {
    hide Eval, Ints;
    assert ValueSteps(f, 4) == ValueSteps(f, 3);
    assert ValueSteps(f, 3) == ValueSteps(f, 2);
    assert ValueSteps(f, 2) == ValueSteps(f, 1);
    assert ValueSteps(f, 1) == ValueSteps(f, 0);
  }

  // How far the even and the odd limbs may be from zero.
  datatype Bound = Bound(even: int, odd: int) {
    function Plus(that: Bound): Bound {
      Bound(even + that.even, odd + that.odd)
    }

    ghost predicate AtMost(that: Bound) {
      even <= that.even && odd <= that.odd
    }
  }

  // 1.01 * 2^25 and 1.01 * 2^24, what fe_mul and fe_sq return; 1.65 * 2^26 and 1.65 * 2^25, what they accept;
  // 1.1 * 2^26 and 1.1 * 2^25, what fe_tobytes accepts.
  const TIGHT := Bound(33889976, 16944988)
  const LOOSE := Bound(110729625, 55364812)
  const MEDIUM := Bound(73819750, 36909875)

  ghost predicate Within(f: Fe, b: Bound) {
    && -b.even <= f.h0 as int <= b.even
    && -b.odd <= f.h1 as int <= b.odd
    && -b.even <= f.h2 as int <= b.even
    && -b.odd <= f.h3 as int <= b.odd
    && -b.even <= f.h4 as int <= b.even
    && -b.odd <= f.h5 as int <= b.odd
    && -b.even <= f.h6 as int <= b.even
    && -b.odd <= f.h7 as int <= b.odd
    && -b.even <= f.h8 as int <= b.even
    && -b.odd <= f.h9 as int <= b.odd
  }

  lemma WithinWeaken(f: Fe, m: Bound, n: Bound)
    requires Within(f, m) && m.AtMost(n)
    ensures Within(f, n)
  {
  }

  // C's a * (int64_t) b on two int32 operands.
  function Wide(a: int32, b: int32): (r: int64)
    ensures r as int == (a as int) * (b as int)
  {
    ProductBound(a as int, b as int, 0x8000_0000, 0x8000_0000);
    (a as int64) * (b as int64)
  }

  lemma ProductBound(x: int, y: int, a: int, b: int)
    requires -a <= x <= a && -b <= y <= b
    ensures -(a * b) <= x * y <= a * b
  {
    if y >= 0 {
      SignedBound(x, y, a, b);
    } else {
      SignedBound(x, -y, a, b);
      assert x * -y == -(x * y);
    }
  }

  lemma SignedBound(x: int, y: nat, a: int, b: int)
    requires -a <= x <= a && y <= b
    ensures -(a * b) <= x * y <= a * b
  {
    TimesMonotone(x, a, y);
    TimesMonotone(-a, x, y);
    TimesMonotone(y, b, a);
    assert -a * y == -(a * y);
  }

  lemma TimesMonotone(x: int, a: int, y: nat)
    requires x <= a
    ensures x * y <= a * y && y * x <= y * a
  {
    assert (a - x) * y >= 0;
  }

  // Round to the nearest multiple of 2^26 (2^25): the carry and the signed remainder.
  method Round26(h: int64) returns (carry: int64, rest: int64)
    requires -0x7fff_ffff_fe00_0000 <= h < 0x7fff_ffff_fe00_0000
    ensures h as int == rest as int + 0x400_0000 * (carry as int) && -0x200_0000 <= rest < 0x200_0000
  {
    carry := (h + 0x200_0000) / 0x400_0000;
    rest := h - carry * 0x400_0000;
  }

  method Round25(h: int64) returns (carry: int64, rest: int64)
    requires -0x7fff_ffff_ff00_0000 <= h < 0x7fff_ffff_ff00_0000
    ensures h as int == rest as int + 0x200_0000 * (carry as int) && -0x100_0000 <= rest < 0x100_0000
  {
    carry := (h + 0x100_0000) / 0x200_0000;
    rest := h - carry * 0x200_0000;
  }
}
