// ntfe/ed25519/sc.c: numbers modulo l as signed limbs in radix 2^21. All limbs are int64, and each step
// is shown not to overflow.
module ScalarLimbs {
  import opened Limbs

  // l = 2^252 + 27742317777372353535851937790883648493, the order of the base point
  const L: int := 0x1000_0000_0000_0000_0000_0000_0000_0000_14de_f9de_a2f7_9cd6_5812_631a_5cf5_d3ed

  ghost function Eval21(s: seq<int64>): int
    decreases s
  {
    if s == [] then 0 else s[0] as int + 0x20_0000 * Eval21(s[1..])
  }

  // 2^(21 i)
  ghost function Weight(i: nat): nat
    decreases i
  {
    if i == 0 then 1 else 0x20_0000 * Weight(i - 1)
  }

  lemma {:induction false} EvalUpdate(s: seq<int64>, i: nat, v: int64)
    requires i < |s|
    ensures Eval21(s[i := v]) == Eval21(s) + (v as int - s[i] as int) * Weight(i)
    decreases s
  {
    if i > 0 {
      assert s[i := v][1..] == s[1..][i - 1 := v];
      EvalUpdate(s[1..], i - 1, v);
      var d := v as int - s[i] as int;
      assert 0x20_0000 * (d * Weight(i - 1)) == d * Weight(i);
    } else {
      assert s[i := v][1..] == s[1..];
    }
  }

  // ----- carries -----

  // carry = (s[i] + 2^20) >> 21: limb i is left between -2^20 and 2^20.
  method RoundCarry(s: seq<int64>, i: nat, ghost b: int) returns (t: seq<int64>)
    requires i + 1 < |s|
    requires 0x20_0000 <= b <= 0x2000_0000_0000_0000 && -b <= s[i] as int <= b
    requires -0x2000_0000_0000_0000 <= s[i + 1] as int <= 0x2000_0000_0000_0000
    ensures |t| == |s| && Eval21(t) == Eval21(s)
    ensures -0x10_0000 <= t[i] < 0x10_0000
    ensures -(b / 0x20_0000 + 1) <= t[i + 1] as int - s[i + 1] as int <= b / 0x20_0000 + 1
    ensures forall k | 0 <= k < |s| && k != i && k != i + 1 :: t[k] == s[k]
  {
    var carry := (s[i] + 0x10_0000) / 0x20_0000;
    t := MoveCarry(s, i, carry);
  }

  // carry = s[i] >> 21: limb i is left between 0 and 2^21.
  method FloorCarry(s: seq<int64>, i: nat, ghost b: int) returns (t: seq<int64>)
    requires i + 1 < |s|
    requires 0x20_0000 <= b <= 0x2000_0000_0000_0000 && -b <= s[i] as int <= b
    requires -0x2000_0000_0000_0000 <= s[i + 1] as int <= 0x2000_0000_0000_0000
    ensures |t| == |s| && Eval21(t) == Eval21(s)
    ensures 0 <= t[i] < 0x20_0000
    ensures -(b / 0x20_0000 + 1) <= t[i + 1] as int - s[i + 1] as int <= b / 0x20_0000 + 1
    ensures forall k | 0 <= k < |s| && k != i && k != i + 1 :: t[k] == s[k]
  {
    var carry := s[i] / 0x20_0000;
    t := MoveCarry(s, i, carry);
  }

  method MoveCarry(s: seq<int64>, i: nat, carry: int64) returns (t: seq<int64>)
    requires i + 1 < |s|
    requires -0x3000_0000_0000_0000 <= s[i] as int <= 0x3000_0000_0000_0000
    requires -0x10_0000 <= s[i] as int - 0x20_0000 * (carry as int) < 0x20_0000
    requires -0x2000_0000_0000_0000 <= s[i + 1] as int <= 0x2000_0000_0000_0000
    ensures |t| == |s| && Eval21(t) == Eval21(s)
    ensures t[i] as int == s[i] as int - 0x20_0000 * (carry as int)
    ensures t[i + 1] as int == s[i + 1] as int + carry as int
    ensures forall k | 0 <= k < |s| && k != i && k != i + 1 :: t[k] == s[k]
  {
    var u := s[i + 1 := s[i + 1] + carry];
    t := u[i := s[i] - carry * 0x20_0000];
    EvalUpdate(s, i + 1, s[i + 1] + carry);
    EvalUpdate(u, i, s[i] - carry * 0x20_0000);
    CarryWeight(carry as int, i);
  }

  lemma CarryWeight(c: int, i: nat)
    ensures c * Weight(i + 1) == (c * 0x20_0000) * Weight(i)
  {
  }

  // ----- reduction by l -----

  // Limb i weighs 2^252 times limb i - 12, and 2^252 = l - 27742...493, whose signed digits are these six.
  // The value drops by q multiples of l.
  method FoldLimb(s: seq<int64>, i: nat, ghost b: int, ghost c: int) returns (t: seq<int64>, ghost q: int)
    requires 12 <= i < |s|
    requires 0 <= c <= 0x200_0000_0000 && 0 <= b <= 0x1000_0000_0000_0000
    requires -c <= s[i] as int <= c
    requires forall k | i - 12 <= k < i - 6 :: -b <= s[k] as int <= b
    ensures |t| == |s| && t[i] == 0
    ensures forall k | i - 12 <= k < i - 6 :: -(b + c * 0x10_0000) <= t[k] as int <= b + c * 0x10_0000
    ensures forall k | 0 <= k < |s| && k != i && !(i - 12 <= k < i - 6) :: t[k] == s[k]
    ensures Eval21(t) == Eval21(s) - L * q
    ensures i == 12 ==> q == s[12] as int
  {
    hide Eval21, Weight;
    var x := s[i];
    var j := i - 12;
    var v0, v1, v2, v3, v4, v5 := SixTerms(s, j, x, b, c);
    t := SetSix(s, j, v0, v1, v2, v3, v4, v5);
    q := x as int * Weight(j);
    FoldValue(s, t, i, v0 as int, v1 as int, v2 as int, v3 as int, v4 as int, v5 as int);
    WeightZero();
    t := t[i := 0];
  }

  lemma FoldValue(s: seq<int64>, t: seq<int64>, i: nat, v0: int, v1: int, v2: int, v3: int, v4: int, v5: int)
    requires 12 <= i < |s| == |t| && t[i] == s[i]
    requires var j := i - 12;
             var x := s[i] as int;
             && v0 - s[j] as int == x * 666643 && v1 - s[j + 1] as int == x * 470296
             && v2 - s[j + 2] as int == x * 654183 && v3 - s[j + 3] as int == 0 - x * 997805
             && v4 - s[j + 4] as int == x * 136657 && v5 - s[j + 5] as int == 0 - x * 683901
    requires var j := i - 12;
             Eval21(t) == Eval21(s) + (v0 - s[j] as int) * Weight(j) + (v1 - s[j + 1] as int) * Weight(j + 1)
               + (v2 - s[j + 2] as int) * Weight(j + 2) + (v3 - s[j + 3] as int) * Weight(j + 3)
               + (v4 - s[j + 4] as int) * Weight(j + 4) + (v5 - s[j + 5] as int) * Weight(j + 5)
    ensures Eval21(t[i := 0]) == Eval21(s) - L * (s[i] as int * Weight(i - 12))
  {
    hide Eval21, Weight;
    EvalUpdate(t, i, 0);
    FoldWeights(s[i] as int, i - 12);
  }

  method SixTerms(s: seq<int64>, j: nat, x: int64, ghost b: int, ghost c: int)
    returns (v0: int64, v1: int64, v2: int64, v3: int64, v4: int64, v5: int64)
    requires j + 6 <= |s|
    requires 0 <= c <= 0x200_0000_0000 && 0 <= b <= 0x1000_0000_0000_0000
    requires -c <= x as int <= c && forall k | j <= k < j + 6 :: -b <= s[k] as int <= b
    ensures v0 as int - s[j] as int == x as int * 666643 && v1 as int - s[j + 1] as int == x as int * 470296
    ensures v2 as int - s[j + 2] as int == x as int * 654183 && v3 as int - s[j + 3] as int == 0 - x as int * 997805
    ensures v4 as int - s[j + 4] as int == x as int * 136657 && v5 as int - s[j + 5] as int == 0 - x as int * 683901
    ensures -(b + c * 0x10_0000) <= v0 as int <= b + c * 0x10_0000
            && -(b + c * 0x10_0000) <= v1 as int <= b + c * 0x10_0000
    ensures -(b + c * 0x10_0000) <= v2 as int <= b + c * 0x10_0000
            && -(b + c * 0x10_0000) <= v3 as int <= b + c * 0x10_0000
    ensures -(b + c * 0x10_0000) <= v4 as int <= b + c * 0x10_0000
            && -(b + c * 0x10_0000) <= v5 as int <= b + c * 0x10_0000
  {
    v0, v1, v2 := s[j] + x * 666643, s[j + 1] + x * 470296, s[j + 2] + x * 654183;
    v3, v4, v5 := s[j + 3] - x * 997805, s[j + 4] + x * 136657, s[j + 5] - x * 683901;
  }

  lemma WeightZero()
    ensures Weight(0) == 1
  {
  }

  // The six assignments of one fold, and what they do to the value.
  method SetSix(s: seq<int64>, j: nat, v0: int64, v1: int64, v2: int64, v3: int64, v4: int64, v5: int64)
    returns (t: seq<int64>)
    requires j + 6 <= |s|
    ensures |t| == |s|
    ensures t[j] == v0 && t[j + 1] == v1 && t[j + 2] == v2 && t[j + 3] == v3 && t[j + 4] == v4 && t[j + 5] == v5
    ensures forall k | 0 <= k < |s| && !(j <= k < j + 6) :: t[k] == s[k]
    ensures Eval21(t) == Eval21(s) + (v0 as int - s[j] as int) * Weight(j)
            + (v1 as int - s[j + 1] as int) * Weight(j + 1)
                         + (v2 as int - s[j + 2] as int) * Weight(j + 2) + (v3 as int - s[j + 3] as int) * Weight(j + 3)
                         + (v4 as int - s[j + 4] as int) * Weight(j + 4) + (v5 as int - s[j + 5] as int) * Weight(j + 5)
  {
    hide Eval21, Weight;
    var t0 := s[j := v0];
    EvalUpdate(s, j, v0);
    var t1 := t0[j + 1 := v1];
    EvalUpdate(t0, j + 1, v1);
    var t2 := t1[j + 2 := v2];
    EvalUpdate(t1, j + 2, v2);
    var t3 := t2[j + 3 := v3];
    EvalUpdate(t2, j + 3, v3);
    var t4 := t3[j + 4 := v4];
    EvalUpdate(t3, j + 4, v4);
    t := t4[j + 5 := v5];
    EvalUpdate(t4, j + 5, v5);
  }

  lemma FoldWeights(x: int, j: nat)
    ensures (x * 666643) * Weight(j) + (x * 470296) * Weight(j + 1) + (x * 654183) * Weight(j + 2)
            + (0 - x * 997805) * Weight(j + 3) + (x * 136657) * Weight(j + 4) + (0 - x * 683901) * Weight(j + 5)
            == x * Weight(j + 12) - L * (x * Weight(j))
  {
    var w := Weight(j);
    WeightSteps(j);
    hide Weight;
    FoldDigits(x, w);
  }

  lemma FoldDigits(x: int, w: int)
    ensures (x * 666643) * w + (x * 470296) * (0x20_0000 * w) + (x * 654183) * (0x400_0000_0000 * w)
            + (0 - x * 997805) * (0x8000_0000_0000_0000 * w) + (x * 136657) * (0x10_0000_0000_0000_0000_0000 * w)
            + (0 - x * 683901) * (0x2_0000_0000_0000_0000_0000_0000_00 * w)
            == x * (0x1000_0000_0000_0000_0000_0000_0000_0000_0000_0000_0000_0000_0000_0000_0000_0000 * w) - L * (x * w)
  {
  }

  lemma WeightSteps(j: nat)
    ensures Weight(j + 1) == 0x20_0000 * Weight(j)
    ensures Weight(j + 2) == 0x400_0000_0000 * Weight(j)
    ensures Weight(j + 3) == 0x8000_0000_0000_0000 * Weight(j)
    ensures Weight(j + 4) == 0x10_0000_0000_0000_0000_0000 * Weight(j)
    ensures Weight(j + 5) == 0x2_0000_0000_0000_0000_0000_0000_00 * Weight(j)
    ensures Weight(j + 12)
            == 0x1000_0000_0000_0000_0000_0000_0000_0000_0000_0000_0000_0000_0000_0000_0000_0000 * Weight(j)
  {
    assert Weight(j + 6) == 0x20_0000 * Weight(j + 5);
    assert Weight(j + 8) == 0x20_0000 * Weight(j + 7);
    assert Weight(j + 10) == 0x20_0000 * Weight(j + 9);
    assert Weight(j + 12) == 0x20_0000 * Weight(j + 11);
  }
}
