// ntfe/ed25519/sc.c: the reduction both sc_reduce and sc_muladd end with.
module ScalarReduction {
  import opened Bytes
  import opened Limbs
  import opened ScalarLimbs

  ghost predicate Range(s: seq<int64>, lo: nat, hi: nat, b: int)
    requires hi <= |s|
  {
    forall k | lo <= k < hi :: -b <= s[k] as int <= b
  }

  // Fold limbs 23 to 18 into limbs 6 to 16.
  method FoldHigh(s: seq<int64>) returns (t: seq<int64>, ghost q: int)
    requires |s| == 24 && Range(s, 0, 24, 0x4_0000_0000)
    ensures |t| == 24 && Range(t, 0, 18, 0x200_0000_0000_0000) && Range(t, 18, 24, 0)
    ensures t[17] == s[17]
    ensures Eval21(t) == Eval21(s) - L * q
  {
    hide Eval21;
    ghost var c := 0x4_0000_0000;
    ghost var r;
    t, q := FoldLimb(s, 23, c, c);
    ghost var b := c + c * 0x10_0000;
    t, r := FoldLimb(t, 22, b, c);
    q := q + r;
    b := b + c * 0x10_0000;
    t, r := FoldLimb(t, 21, b, c);
    q := q + r;
    b := b + c * 0x10_0000;
    t, r := FoldLimb(t, 20, b, c);
    q := q + r;
    b := b + c * 0x10_0000;
    t, r := FoldLimb(t, 19, b, c);
    q := q + r;
    b := b + c * 0x10_0000;
    t, r := FoldLimb(t, 18, b, c);
    q := q + r;
  }

  // Carry out of limbs 6, 8, ..., 16, then 7, 9, ..., 15.
  method CarryHigh(s: seq<int64>) returns (t: seq<int64>)
    requires |s| == 24 && Range(s, 0, 18, 0x200_0000_0000_0000) && Range(s, 18, 24, 0)
    requires -0x4_0000_0000 <= s[17] as int <= 0x4_0000_0000
    ensures |t| == 24 && Range(t, 0, 6, 0x200_0000_0000_0000) && Range(t, 6, 18, 0x18_0000_0000) && Range(t, 18, 24, 0)
    ensures Eval21(t) == Eval21(s)
  {
    hide Eval21;
    ghost var b := 0x200_0100_0000_0000;
    t := RoundCarry(s, 6, b);
    t := RoundCarry(t, 8, b);
    t := RoundCarry(t, 10, b);
    t := RoundCarry(t, 12, b);
    t := RoundCarry(t, 14, b);
    t := RoundCarry(t, 16, b);
    t := RoundCarry(t, 7, b);
    t := RoundCarry(t, 9, b);
    t := RoundCarry(t, 11, b);
    t := RoundCarry(t, 13, b);
    t := RoundCarry(t, 15, b);
  }

  // Fold limbs 17 to 12 into limbs 0 to 10.
  method FoldMiddle(s: seq<int64>) returns (t: seq<int64>, ghost q: int)
    requires |s| == 24 && Range(s, 0, 6, 0x200_0000_0000_0000) && Range(s, 6, 18, 0x18_0000_0000) && Range(s, 18, 24, 0)
    ensures |t| == 24 && Range(t, 0, 12, 0x1000_0000_0000_0000) && Range(t, 12, 24, 0)
    ensures Eval21(t) == Eval21(s) - L * q
  {
    hide Eval21;
    ghost var c := 0x18_0000_0000;
    ghost var b := 0x200_0000_0000_0000;
    ghost var r;
    t, q := FoldLimb(s, 17, b, c);
    b := b + c * 0x10_0000;
    t, r := FoldLimb(t, 16, b, c);
    q := q + r;
    b := b + c * 0x10_0000;
    t, r := FoldLimb(t, 15, b, c);
    q := q + r;
    b := b + c * 0x10_0000;
    t, r := FoldLimb(t, 14, b, c);
    q := q + r;
    b := b + c * 0x10_0000;
    t, r := FoldLimb(t, 13, b, c);
    q := q + r;
    b := b + c * 0x10_0000;
    t, r := FoldLimb(t, 12, b, c);
    q := q + r;
  }

  // Carry out of limbs 0, 2, ..., 10, then 1, 3, ..., 11.
  method CarryLow(s: seq<int64>) returns (t: seq<int64>)
    requires |s| == 24 && Range(s, 0, 12, 0x1000_0000_0000_0000) && Range(s, 12, 24, 0)
    ensures |t| == 24 && Range(t, 0, 11, 0x90_0000_0000) && Range(t, 11, 12, 0x10_0000)
    ensures Range(t, 12, 13, 0x90_0000_0000) && Range(t, 13, 24, 0)
    ensures Eval21(t) == Eval21(s)
  {
    hide Eval21;
    ghost var b := 0x1001_0000_0000_0000;
    t := RoundCarry(s, 0, b);
    t := RoundCarry(t, 2, b);
    t := RoundCarry(t, 4, b);
    t := RoundCarry(t, 6, b);
    t := RoundCarry(t, 8, b);
    t := RoundCarry(t, 10, b);
    t := RoundCarry(t, 1, b);
    t := RoundCarry(t, 3, b);
    t := RoundCarry(t, 5, b);
    t := RoundCarry(t, 7, b);
    t := RoundCarry(t, 9, b);
    t := RoundCarry(t, 11, b);
  }

  // Carries that round down out of limbs 0 to 5.
  method FloorFirst(s: seq<int64>) returns (t: seq<int64>)
    requires |s| == 24 && Range(s, 0, 12, 0x1800_0000_0000_0000)
    ensures |t| == 24 && (forall k | 0 <= k < 6 :: 0 <= t[k] < 0x20_0000)
    ensures forall k | 7 <= k < 24 :: t[k] == s[k]
    ensures -0x100_0000_0000 <= t[6] as int - s[6] as int <= 0x100_0000_0000
    ensures Eval21(t) == Eval21(s)
  {
    hide Eval21;
    ghost var b := 0x1801_0000_0000_0000;
    t := FloorCarry(s, 0, b);
    t := FloorCarry(t, 1, b);
    t := FloorCarry(t, 2, b);
    t := FloorCarry(t, 3, b);
    t := FloorCarry(t, 4, b);
    t := FloorCarry(t, 5, b);
  }

  // Carries that round down out of limbs 6 to 10.
  method FloorSecond(s: seq<int64>) returns (t: seq<int64>)
    requires |s| == 24 && Range(s, 6, 12, 0x1801_0000_0000_0000)
    ensures |t| == 24 && (forall k | 6 <= k < 11 :: 0 <= t[k] < 0x20_0000)
    ensures forall k | 0 <= k < 6 || 12 <= k < 24 :: t[k] == s[k]
    ensures -0x100_0000_0000 <= t[11] as int - s[11] as int <= 0x100_0000_0000
    ensures Eval21(t) == Eval21(s)
  {
    hide Eval21;
    ghost var b := 0x1802_0000_0000_0000;
    t := FloorCarry(s, 6, b);
    t := FloorCarry(t, 7, b);
    t := FloorCarry(t, 8, b);
    t := FloorCarry(t, 9, b);
    t := FloorCarry(t, 10, b);
  }

  // Limbs 0 to 10 become digits; the rest of the value stays in limbs 11 and 12.
  method FloorTen(s: seq<int64>) returns (t: seq<int64>)
    requires |s| == 24 && Range(s, 0, 12, 0x1800_0000_0000_0000)
    ensures |t| == 24 && forall k | 0 <= k < 11 :: 0 <= t[k] < 0x20_0000
    ensures forall k | 12 <= k < 24 :: t[k] == s[k]
    ensures -0x100_0000_0000 <= t[11] as int - s[11] as int <= 0x100_0000_0000
    ensures Eval21(t) == Eval21(s)
  {
    hide Eval21;
    t := FloorFirst(s);
    t := FloorSecond(t);
  }

  // The value of twelve limbs and of a thirteenth, the rest being zero.
  lemma {:induction false} EvalZeros(s: seq<int64>)
    requires forall k | 0 <= k < |s| :: s[k] == 0
    ensures Eval21(s) == 0
    decreases s
  {
    if s != [] {
      EvalZeros(s[1..]);
    }
  }

  lemma EvalStep(s: seq<int64>, i: nat)
    requires i < |s|
    ensures Eval21(s[i..]) == s[i] as int + 0x20_0000 * Eval21(s[i + 1..])
  {
    assert s[i..][1..] == s[i + 1..];
  }

  ghost function Twelve(s: seq<int64>): int
    requires |s| >= 12
  {
    (s[0] as int) + 0x20_0000 * (s[1] as int) + 0x400_0000_0000 * (s[2] as int)
        + 0x8000_0000_0000_0000 * (s[3] as int) + 0x10_0000_0000_0000_0000_0000 * (s[4] as int)
    + 0x200_0000_0000_0000_0000_0000_0000 * (s[5] as int)
    + 0x4000_0000_0000_0000_0000_0000_0000_0000 * (s[6] as int)
    + 0x8_0000_0000_0000_0000_0000_0000_0000_0000_0000 * (s[7] as int)
    + 0x100_0000_0000_0000_0000_0000_0000_0000_0000_0000_0000 * (s[8] as int)
    + 0x2000_0000_0000_0000_0000_0000_0000_0000_0000_0000_0000_0000 * (s[9] as int)
    + 0x4_0000_0000_0000_0000_0000_0000_0000_0000_0000_0000_0000_0000_0000 * (s[10] as int)
    + 0x80_0000_0000_0000_0000_0000_0000_0000_0000_0000_0000_0000_0000_0000_0000 * (s[11] as int)
  }

  // 2^252
  const EXP252: int := 0x1000_0000_0000_0000_0000_0000_0000_0000_0000_0000_0000_0000_0000_0000_0000_0000

  lemma {:induction false} EvalTwelve(s: seq<int64>)
    requires |s| >= 12
    ensures Eval21(s) == Twelve(s) + EXP252 * Eval21(s[12..])
  {
    EvalStep(s, 0); EvalStep(s, 1); EvalStep(s, 2); EvalStep(s, 3); EvalStep(s, 4); EvalStep(s, 5);
    EvalStep(s, 6); EvalStep(s, 7); EvalStep(s, 8); EvalStep(s, 9); EvalStep(s, 10); EvalStep(s, 11);
    assert s[0..] == s;
    hide Eval21;
  }

  lemma {:induction false} EvalThirteen(s: seq<int64>)
    requires |s| == 24 && Range(s, 13, 24, 0)
    ensures Eval21(s) == Twelve(s) + EXP252 * (s[12] as int)
  {
    EvalTwelve(s);
    EvalStep(s, 12);
    EvalZeros(s[13..]);
  }

  // Digits 0 to 2^21 - 1 except for a top digit that may also be 2^21: sc.c does not carry out of limb 11 again.
  ghost predicate Canonical(t: seq<int64>) {
    && |t| == 12
    && (forall k | 0 <= k < 11 :: 0 <= t[k] < 0x20_0000)
    && 0 <= t[11] <= 0x20_0000
  }

  // After the rounding carries the value is within 2^252 of zero, so the floor carries leave 0 or -1 in limb 12,
  // and the last fold adds l exactly when the value was negative.
  method ReduceLast(s: seq<int64>) returns (t: seq<int64>, ghost q: int)
    requires |s| == 24 && Range(s, 0, 11, 0x90_0000_0000) && Range(s, 11, 12, 0x10_0000)
    requires Range(s, 12, 13, 0x90_0000_0000) && Range(s, 13, 24, 0)
    ensures Canonical(t)
    ensures Eval21(t) == Eval21(s) - L * q
    ensures 0 <= Eval21(t) < L
  {
    hide Eval21, Twelve;
    ghost var r;
    t, q := FoldLimb(s, 12, 0x90_0000_0000, 0x90_0000_0000);
    ghost var x := Eval21(t);
    SmallValue(t);
    t := FloorTen(t);
    t := FloorCarry(t, 11, 0x1800_0000_0000_0000);
    assert Range(t, 13, 24, 0);
    EvalThirteen(t);
    FloorTop(t, x);
    t, r := FoldLimb(t, 12, 0x20_0000, 1);
    q := q + r;
    ghost var y := Eval21(t);
    assert Range(t, 0, 12, 0x1000_0000_0000_0000);
    t := FloorTen(t);
    assert Range(t, 13, 24, 0);
    EvalThirteen(t);
    TopDigit(t, y);
    ghost var u := t;
    t := t[..12];
    EvalTwelve(t);
    TwelvePrefix(u);
    EvalZeros(t[12..]);
  }

  lemma TwelvePrefix(u: seq<int64>)
    requires |u| == 24
    ensures Twelve(u[..12]) == Twelve(u)
  {
  }

  lemma {:induction false} SmallValue(t: seq<int64>)
    requires |t| == 24 && Range(t, 12, 24, 0)
    requires Range(t, 0, 6, 0x1000_0000_0000_0000) && Range(t, 6, 11, 0x90_0000_0000) && Range(t, 11, 12, 0x10_0000)
    ensures -EXP252 < Eval21(t) < EXP252
  {
    EvalThirteen(t);
    hide Eval21;
  }

  lemma FloorTop(t: seq<int64>, x: int)
    requires |t| == 24 && forall k | 0 <= k < 12 :: 0 <= t[k] < 0x20_0000
    requires x == Twelve(t) + EXP252 * (t[12] as int) && -EXP252 < x < EXP252
    ensures t[12] == if x < 0 then -1 else 0
    ensures 0 <= x - L * (t[12] as int) < L
  {
    assert 0 <= Twelve(t) < EXP252;
  }

  lemma TopDigit(t: seq<int64>, y: int)
    requires |t| == 24 && forall k | 0 <= k < 11 :: 0 <= t[k] < 0x20_0000
    requires y == Twelve(t) + EXP252 * (t[12] as int) && t[12] == 0 && 0 <= y < L
    ensures 0 <= t[11] <= 0x20_0000
  {
  }

  // What both functions end with: the canonical representative modulo l, as twelve limbs.
  method Reduce(s: seq<int64>) returns (t: seq<int64>)
    requires |s| == 24 && Range(s, 0, 24, 0x4_0000_0000)
    ensures Canonical(t)
    ensures Eval21(t) == Eval21(s) % L
  {
    hide Eval21, Canonical;
    ghost var q, r;
    ghost var x := Eval21(s);
    t, q := FoldHigh(s);
    t := CarryHigh(t);
    t, r := FoldMiddle(t);
    q := q + r;
    t := CarryLow(t);
    t, r := ReduceLast(t);
    q := q + r;
    DivModUnique(x, L, q, Eval21(t));
  }
}
