// ntfe/ed25519/fe.c: addition, subtraction, negation, multiplication and squaring of field elements.
module FieldArithmetic {
  import opened Congruence
  import opened Limbs

  // The limbs of one
  const UNIT := Bound(1, 0)

  // No int32 sum overflows below this bound.
  const LIMIT := Bound(0x7fff_ffff, 0x7fff_ffff)

  method Zero() returns (h: Fe)
    ensures Value(h) == 0 && Within(h, TIGHT)
  {
    h := Fe(0, 0, 0, 0, 0, 0, 0, 0, 0, 0);
    ValueMeaning(h);
  }

  method One() returns (h: Fe)
    ensures Value(h) == 1 && Within(h, TIGHT) && Within(h, UNIT)
  {
    h := Fe(1, 0, 0, 0, 0, 0, 0, 0, 0, 0);
    ValueMeaning(h);
  }

  // h = f + g, limb by limb. The bounds of the operands add up; no limb is carried.
  method Add(f: Fe, g: Fe, ghost m: Bound, ghost n: Bound) returns (h: Fe)
    requires Within(f, m) && Within(g, n) && m.Plus(n).AtMost(LIMIT)
    ensures Value(h) == Value(f) + Value(g) && Within(h, m.Plus(n))
  {
    var h0, h1, h2, h3, h4 := f.h0 + g.h0, f.h1 + g.h1, f.h2 + g.h2, f.h3 + g.h3, f.h4 + g.h4;
    var h5, h6, h7, h8, h9 := f.h5 + g.h5, f.h6 + g.h6, f.h7 + g.h7, f.h8 + g.h8, f.h9 + g.h9;
    h := Fe(h0, h1, h2, h3, h4, h5, h6, h7, h8, h9);
    ValueMeaning(f);
    ValueMeaning(g);
    ValueMeaning(h);
  }

  // h = f - g, limb by limb. The bounds of the operands add up; no limb is carried.
  method Sub(f: Fe, g: Fe, ghost m: Bound, ghost n: Bound) returns (h: Fe)
    requires Within(f, m) && Within(g, n) && m.Plus(n).AtMost(LIMIT)
    ensures Value(h) == Value(f) - Value(g) && Within(h, m.Plus(n))
  {
    var h0, h1, h2, h3, h4 := f.h0 - g.h0, f.h1 - g.h1, f.h2 - g.h2, f.h3 - g.h3, f.h4 - g.h4;
    var h5, h6, h7, h8, h9 := f.h5 - g.h5, f.h6 - g.h6, f.h7 - g.h7, f.h8 - g.h8, f.h9 - g.h9;
    h := Fe(h0, h1, h2, h3, h4, h5, h6, h7, h8, h9);
    ValueMeaning(f);
    ValueMeaning(g);
    ValueMeaning(h);
  }

  method Neg(f: Fe, ghost n: Bound) returns (h: Fe)
    requires Within(f, n) && n.AtMost(LIMIT)
    ensures Value(h) == -Value(f) && Within(h, n)
  {
    h := Fe(-f.h0, -f.h1, -f.h2, -f.h3, -f.h4, -f.h5, -f.h6, -f.h7, -f.h8, -f.h9);
    ValueMeaning(f);
    ValueMeaning(h);
  }

  // ----- the product of two limb vectors -----

  ghost function Scale(x: int, v: Vec): Vec {
    Vec(x * v.h0, x * v.h1, x * v.h2, x * v.h3, x * v.h4,
        x * v.h5, x * v.h6, x * v.h7, x * v.h8, x * v.h9)
  }

  lemma EvalScale(x: int, v: Vec)
    ensures Eval(Scale(x, v)) == x * Eval(v)
  {
  }

  // The hundred products: row i is f_i * g.
  datatype Table = Table(r0: Vec, r1: Vec, r2: Vec, r3: Vec, r4: Vec, r5: Vec, r6: Vec, r7: Vec, r8: Vec, r9: Vec)

  ghost function Products(f: Vec, g: Vec): Table {
    Table(Scale(f.h0, g), Scale(f.h1, g), Scale(f.h2, g), Scale(f.h3, g), Scale(f.h4, g),
          Scale(f.h5, g), Scale(f.h6, g), Scale(f.h7, g), Scale(f.h8, g), Scale(f.h9, g))
  }

  // Where fe_mul adds each product: f_i g_j goes to limb i + j, twice if both weights are rounded up,
  // and 19 times to limb i + j - 10 if it passes 2^255.
  ghost function Fold(m: Table): Vec {
    Vec(Fold0(m), Fold1(m), Fold2(m), Fold3(m), Fold4(m), Fold5(m), Fold6(m), Fold7(m), Fold8(m), Fold9(m))
  }

  ghost function Fold0(m: Table): int {
    m.r0.h0 + 38 * m.r1.h9 + 19 * m.r2.h8 + 38 * m.r3.h7 + 19 * m.r4.h6
    + 38 * m.r5.h5 + 19 * m.r6.h4 + 38 * m.r7.h3 + 19 * m.r8.h2 + 38 * m.r9.h1
  }

  ghost function Fold1(m: Table): int {
    m.r0.h1 + m.r1.h0 + 19 * m.r2.h9 + 19 * m.r3.h8 + 19 * m.r4.h7
    + 19 * m.r5.h6 + 19 * m.r6.h5 + 19 * m.r7.h4 + 19 * m.r8.h3 + 19 * m.r9.h2
  }

  ghost function Fold2(m: Table): int {
    m.r0.h2 + 2 * m.r1.h1 + m.r2.h0 + 38 * m.r3.h9 + 19 * m.r4.h8
    + 38 * m.r5.h7 + 19 * m.r6.h6 + 38 * m.r7.h5 + 19 * m.r8.h4 + 38 * m.r9.h3
  }

  ghost function Fold3(m: Table): int {
    m.r0.h3 + m.r1.h2 + m.r2.h1 + m.r3.h0 + 19 * m.r4.h9
    + 19 * m.r5.h8 + 19 * m.r6.h7 + 19 * m.r7.h6 + 19 * m.r8.h5 + 19 * m.r9.h4
  }

  ghost function Fold4(m: Table): int {
    m.r0.h4 + 2 * m.r1.h3 + m.r2.h2 + 2 * m.r3.h1 + m.r4.h0
    + 38 * m.r5.h9 + 19 * m.r6.h8 + 38 * m.r7.h7 + 19 * m.r8.h6 + 38 * m.r9.h5
  }

  ghost function Fold5(m: Table): int {
    m.r0.h5 + m.r1.h4 + m.r2.h3 + m.r3.h2 + m.r4.h1
    + m.r5.h0 + 19 * m.r6.h9 + 19 * m.r7.h8 + 19 * m.r8.h7 + 19 * m.r9.h6
  }

  ghost function Fold6(m: Table): int {
    m.r0.h6 + 2 * m.r1.h5 + m.r2.h4 + 2 * m.r3.h3 + m.r4.h2
    + 2 * m.r5.h1 + m.r6.h0 + 38 * m.r7.h9 + 19 * m.r8.h8 + 38 * m.r9.h7
  }

  ghost function Fold7(m: Table): int {
    m.r0.h7 + m.r1.h6 + m.r2.h5 + m.r3.h4 + m.r4.h3
    + m.r5.h2 + m.r6.h1 + m.r7.h0 + 19 * m.r8.h9 + 19 * m.r9.h8
  }

  ghost function Fold8(m: Table): int {
    m.r0.h8 + 2 * m.r1.h7 + m.r2.h6 + 2 * m.r3.h5 + m.r4.h4
    + 2 * m.r5.h3 + m.r6.h2 + 2 * m.r7.h1 + m.r8.h0 + 38 * m.r9.h9
  }

  ghost function Fold9(m: Table): int {
    m.r0.h9 + m.r1.h8 + m.r2.h7 + m.r3.h6 + m.r4.h5
    + m.r5.h4 + m.r6.h3 + m.r7.h2 + m.r8.h1 + m.r9.h0
  }

  // The same sums by Horner's rule: multiplication by 2^26 and by 2^51 moves limbs up one and two places,
  // and what passes 2^255 comes back times 19.
  ghost function Up26(v: Vec): Vec {
    Vec(38 * v.h9, v.h0, 2 * v.h1, v.h2, 2 * v.h3, v.h4, 2 * v.h5, v.h6, 2 * v.h7, v.h8)
  }

  ghost function Up51(v: Vec): Vec {
    Vec(19 * v.h8, 19 * v.h9, v.h0, v.h1, v.h2, v.h3, v.h4, v.h5, v.h6, v.h7)
  }

  ghost function VecSum(u: Vec, v: Vec): Vec {
    Vec(u.h0 + v.h0, u.h1 + v.h1, u.h2 + v.h2, u.h3 + v.h3, u.h4 + v.h4,
        u.h5 + v.h5, u.h6 + v.h6, u.h7 + v.h7, u.h8 + v.h8, u.h9 + v.h9)
  }

  lemma EvalSum(u: Vec, v: Vec)
    ensures Eval(VecSum(u, v)) == Eval(u) + Eval(v)
  {
  }

  // low + 2^26 high + 2^51 rest
  ghost function Step(low: Vec, high: Vec, rest: Vec): Vec {
    VecSum(VecSum(low, Up26(high)), Up51(rest))
  }

  // v has the value r modulo p; a stepped definition.
  ghost predicate Evaluates(v: Vec, r: int) {
    EvaluatesSteps(v, r, 4)
  }

  ghost predicate EvaluatesSteps(v: Vec, r: int, n: nat)
    decreases n, v, r
  {
    if n == 0 then Cong(Eval(v), r) else EvaluatesSteps(v, r, n - 1)
  }

  lemma EvaluatesMeaning(v: Vec, r: int)
    ensures Evaluates(v, r) <==> Cong(Eval(v), r)
  {
    hide Eval, Cong;
    assert EvaluatesSteps(v, r, 4) == EvaluatesSteps(v, r, 3);
    assert EvaluatesSteps(v, r, 3) == EvaluatesSteps(v, r, 2);
    assert EvaluatesSteps(v, r, 2) == EvaluatesSteps(v, r, 1);
    assert EvaluatesSteps(v, r, 1) == EvaluatesSteps(v, r, 0);
  }

  lemma StepValue(low: Vec, high: Vec, rest: Vec, r: int)
    requires Evaluates(rest, r)
    ensures Evaluates(Step(low, high, rest), Eval(low) + 0x400_0000 * Eval(high) + 0x8_0000_0000_0000 * r)
  {
    hide Eval, VecSum, Up26, Up51, Cong, Evaluates;
    var value := Eval(low) + 0x400_0000 * Eval(high) + 0x8_0000_0000_0000 * r;
    EvaluatesMeaning(rest, r);
    EvaluatesMeaning(Step(low, high, rest), value);
    var q := CongElim(Eval(rest), r);
    Up26Value(high);
    Up51Value(rest);
    EvalSum(low, Up26(high));
    EvalSum(VecSum(low, Up26(high)), Up51(rest));
    CongWitness(Eval(Step(low, high, rest)), value,
      -2 * high.h9 - rest.h8 - 0x400_0000 * rest.h9 + 0x8_0000_0000_0000 * q);
  }

  lemma Up26Value(v: Vec)
    ensures Eval(Up26(v)) == 0x400_0000 * Eval(v) - P * (2 * v.h9)
  {
  }

  lemma Up51Value(v: Vec)
    ensures Eval(Up51(v)) == 0x8_0000_0000_0000 * Eval(v) - P * (v.h8 + 0x400_0000 * v.h9)
  {
  }

  ghost function Horner(m: Table): Vec {
    Step(m.r0, m.r1, Step(m.r2, m.r3, Step(m.r4, m.r5, Step(m.r6, m.r7, VecSum(m.r8, Up26(m.r9))))))
  }

  lemma FoldIsHorner(m: Table)
    ensures Fold(m) == Horner(m)
  {
  }

  lemma LastValue(low: Vec, high: Vec)
    ensures Evaluates(VecSum(low, Up26(high)), Eval(low) + 0x400_0000 * Eval(high))
  {
    hide Eval, VecSum, Up26, Cong, Evaluates;
    EvaluatesMeaning(VecSum(low, Up26(high)), Eval(low) + 0x400_0000 * Eval(high));
    Up26Value(high);
    EvalSum(low, Up26(high));
    CongWitness(Eval(VecSum(low, Up26(high))), Eval(low) + 0x400_0000 * Eval(high), -2 * high.h9);
  }

  lemma HornerValue(m: Table)
    ensures Cong(Eval(Horner(m)), Eval(m.r0) + 0x400_0000 * Eval(m.r1) + 0x8_0000_0000_0000 * (
                   Eval(m.r2) + 0x400_0000 * Eval(m.r3) + 0x8_0000_0000_0000 * (
                   Eval(m.r4) + 0x400_0000 * Eval(m.r5) + 0x8_0000_0000_0000 * (
                   Eval(m.r6) + 0x400_0000 * Eval(m.r7) + 0x8_0000_0000_0000 * (
                   Eval(m.r8) + 0x400_0000 * Eval(m.r9))))))
  {
    hide Step, Up51, Eval, VecSum, Up26, Cong, Evaluates;
    var c := 0x8_0000_0000_0000;
    var v8 := Eval(m.r8) + 0x400_0000 * Eval(m.r9);
    var t8 := VecSum(m.r8, Up26(m.r9));
    LastValue(m.r8, m.r9);
    var v6 := Eval(m.r6) + 0x400_0000 * Eval(m.r7) + c * v8;
    var t6 := Step(m.r6, m.r7, t8);
    StepValue(m.r6, m.r7, t8, v8);
    var v4 := Eval(m.r4) + 0x400_0000 * Eval(m.r5) + c * v6;
    var t4 := Step(m.r4, m.r5, t6);
    StepValue(m.r4, m.r5, t6, v6);
    var v2 := Eval(m.r2) + 0x400_0000 * Eval(m.r3) + c * v4;
    var t2 := Step(m.r2, m.r3, t4);
    StepValue(m.r2, m.r3, t4, v4);
    StepValue(m.r0, m.r1, t2, v2);
    EvaluatesMeaning(Horner(m), Eval(m.r0) + 0x400_0000 * Eval(m.r1) + c * v2);
  }

  // The sums of fe_mul represent the product modulo p.
  lemma SchoolbookValue(f: Vec, g: Vec)
    ensures Cong(Eval(Fold(Products(f, g))), Eval(f) * Eval(g))
  {
    hide *;
    var m := Products(f, g);
    FoldIsHorner(m);
    HornerValue(m);
    RowValues(f, g);
    RowsSum(f, Eval(g));
  }

  lemma RowValues(f: Vec, g: Vec)
    ensures var m := Products(f, g);
            && Eval(m.r0) == f.h0 * Eval(g) && Eval(m.r1) == f.h1 * Eval(g) && Eval(m.r2) == f.h2 * Eval(g)
            && Eval(m.r3) == f.h3 * Eval(g) && Eval(m.r4) == f.h4 * Eval(g) && Eval(m.r5) == f.h5 * Eval(g)
            && Eval(m.r6) == f.h6 * Eval(g) && Eval(m.r7) == f.h7 * Eval(g) && Eval(m.r8) == f.h8 * Eval(g)
            && Eval(m.r9) == f.h9 * Eval(g)
  {
    EvalScale(f.h0, g); EvalScale(f.h1, g); EvalScale(f.h2, g); EvalScale(f.h3, g); EvalScale(f.h4, g);
    EvalScale(f.h5, g); EvalScale(f.h6, g); EvalScale(f.h7, g); EvalScale(f.h8, g); EvalScale(f.h9, g);
  }

  lemma RowsSum(f: Vec, v: int)
    ensures f.h0 * v + 0x400_0000 * (f.h1 * v) + 0x8_0000_0000_0000 * (
              f.h2 * v + 0x400_0000 * (f.h3 * v) + 0x8_0000_0000_0000 * (
              f.h4 * v + 0x400_0000 * (f.h5 * v) + 0x8_0000_0000_0000 * (
              f.h6 * v + 0x400_0000 * (f.h7 * v) + 0x8_0000_0000_0000 * (
              f.h8 * v + 0x400_0000 * (f.h9 * v))))) == Eval(f) * v
  {
  }

  // A bound on the ten sums of products, with room for the carries below 2^63.
  const WIDE: int := 0x1c00000000000000

  // The ten sums of fe_mul, in its own order. The factor 2 belongs to two odd limbs, the factor 19 to a product
  // that passes 2^255; both are applied to int32 operands first.

  method MulLimb0(f: Fe, g: Fe) returns (h: int64)
    requires Within(f, LOOSE) && Within(g, LOOSE)
    ensures -WIDE <= h as int <= WIDE
    ensures h as int == Fold0(Products(Ints(f), Ints(g)))
  {
    var f1_2: int32 := 2 * f.h1;
    var f3_2: int32 := 2 * f.h3;
    var f5_2: int32 := 2 * f.h5;
    var f7_2: int32 := 2 * f.h7;
    var f9_2: int32 := 2 * f.h9;
    var g1_19: int32 := 19 * g.h1;
    var g2_19: int32 := 19 * g.h2;
    var g3_19: int32 := 19 * g.h3;
    var g4_19: int32 := 19 * g.h4;
    var g5_19: int32 := 19 * g.h5;
    var g6_19: int32 := 19 * g.h6;
    var g7_19: int32 := 19 * g.h7;
    var g8_19: int32 := 19 * g.h8;
    var g9_19: int32 := 19 * g.h9;
    ProductBound(f.h0 as int, g.h0 as int, 110729625, 110729625);
    ProductBound(f1_2 as int, g9_19 as int, 110729624, 1051931428);
    ProductBound(f.h2 as int, g8_19 as int, 110729625, 2103862875);
    ProductBound(f3_2 as int, g7_19 as int, 110729624, 1051931428);
    ProductBound(f.h4 as int, g6_19 as int, 110729625, 2103862875);
    ProductBound(f5_2 as int, g5_19 as int, 110729624, 1051931428);
    ProductBound(f.h6 as int, g4_19 as int, 110729625, 2103862875);
    ProductBound(f7_2 as int, g3_19 as int, 110729624, 1051931428);
    ProductBound(f.h8 as int, g2_19 as int, 110729625, 2103862875);
    ProductBound(f9_2 as int, g1_19 as int, 110729624, 1051931428);
    h := Wide(f.h0, g.h0) + Wide(f1_2, g9_19) + Wide(f.h2, g8_19) + Wide(f3_2, g7_19) + Wide(f.h4, g6_19)
         + Wide(f5_2, g5_19) + Wide(f.h6, g4_19) + Wide(f7_2, g3_19) + Wide(f.h8, g2_19) + Wide(f9_2, g1_19);
  }

  method MulLimb1(f: Fe, g: Fe) returns (h: int64)
    requires Within(f, LOOSE) && Within(g, LOOSE)
    ensures -WIDE <= h as int <= WIDE
    ensures h as int == Fold1(Products(Ints(f), Ints(g)))
  {
    var g2_19: int32 := 19 * g.h2;
    var g3_19: int32 := 19 * g.h3;
    var g4_19: int32 := 19 * g.h4;
    var g5_19: int32 := 19 * g.h5;
    var g6_19: int32 := 19 * g.h6;
    var g7_19: int32 := 19 * g.h7;
    var g8_19: int32 := 19 * g.h8;
    var g9_19: int32 := 19 * g.h9;
    ProductBound(f.h0 as int, g.h1 as int, 110729625, 55364812);
    ProductBound(f.h1 as int, g.h0 as int, 55364812, 110729625);
    ProductBound(f.h2 as int, g9_19 as int, 110729625, 1051931428);
    ProductBound(f.h3 as int, g8_19 as int, 55364812, 2103862875);
    ProductBound(f.h4 as int, g7_19 as int, 110729625, 1051931428);
    ProductBound(f.h5 as int, g6_19 as int, 55364812, 2103862875);
    ProductBound(f.h6 as int, g5_19 as int, 110729625, 1051931428);
    ProductBound(f.h7 as int, g4_19 as int, 55364812, 2103862875);
    ProductBound(f.h8 as int, g3_19 as int, 110729625, 1051931428);
    ProductBound(f.h9 as int, g2_19 as int, 55364812, 2103862875);
    h := Wide(f.h0, g.h1) + Wide(f.h1, g.h0) + Wide(f.h2, g9_19) + Wide(f.h3, g8_19) + Wide(f.h4, g7_19)
         + Wide(f.h5, g6_19) + Wide(f.h6, g5_19) + Wide(f.h7, g4_19) + Wide(f.h8, g3_19) + Wide(f.h9, g2_19);
  }

  method MulLimb2(f: Fe, g: Fe) returns (h: int64)
    requires Within(f, LOOSE) && Within(g, LOOSE)
    ensures -WIDE <= h as int <= WIDE
    ensures h as int == Fold2(Products(Ints(f), Ints(g)))
  {
    var f1_2: int32 := 2 * f.h1;
    var f3_2: int32 := 2 * f.h3;
    var f5_2: int32 := 2 * f.h5;
    var f7_2: int32 := 2 * f.h7;
    var f9_2: int32 := 2 * f.h9;
    var g3_19: int32 := 19 * g.h3;
    var g4_19: int32 := 19 * g.h4;
    var g5_19: int32 := 19 * g.h5;
    var g6_19: int32 := 19 * g.h6;
    var g7_19: int32 := 19 * g.h7;
    var g8_19: int32 := 19 * g.h8;
    var g9_19: int32 := 19 * g.h9;
    ProductBound(f.h0 as int, g.h2 as int, 110729625, 110729625);
    ProductBound(f1_2 as int, g.h1 as int, 110729624, 55364812);
    ProductBound(f.h2 as int, g.h0 as int, 110729625, 110729625);
    ProductBound(f3_2 as int, g9_19 as int, 110729624, 1051931428);
    ProductBound(f.h4 as int, g8_19 as int, 110729625, 2103862875);
    ProductBound(f5_2 as int, g7_19 as int, 110729624, 1051931428);
    ProductBound(f.h6 as int, g6_19 as int, 110729625, 2103862875);
    ProductBound(f7_2 as int, g5_19 as int, 110729624, 1051931428);
    ProductBound(f.h8 as int, g4_19 as int, 110729625, 2103862875);
    ProductBound(f9_2 as int, g3_19 as int, 110729624, 1051931428);
    h := Wide(f.h0, g.h2) + Wide(f1_2, g.h1) + Wide(f.h2, g.h0) + Wide(f3_2, g9_19) + Wide(f.h4, g8_19)
         + Wide(f5_2, g7_19) + Wide(f.h6, g6_19) + Wide(f7_2, g5_19) + Wide(f.h8, g4_19) + Wide(f9_2, g3_19);
  }

  method MulLimb3(f: Fe, g: Fe) returns (h: int64)
    requires Within(f, LOOSE) && Within(g, LOOSE)
    ensures -WIDE <= h as int <= WIDE
    ensures h as int == Fold3(Products(Ints(f), Ints(g)))
  {
    var g4_19: int32 := 19 * g.h4;
    var g5_19: int32 := 19 * g.h5;
    var g6_19: int32 := 19 * g.h6;
    var g7_19: int32 := 19 * g.h7;
    var g8_19: int32 := 19 * g.h8;
    var g9_19: int32 := 19 * g.h9;
    ProductBound(f.h0 as int, g.h3 as int, 110729625, 55364812);
    ProductBound(f.h1 as int, g.h2 as int, 55364812, 110729625);
    ProductBound(f.h2 as int, g.h1 as int, 110729625, 55364812);
    ProductBound(f.h3 as int, g.h0 as int, 55364812, 110729625);
    ProductBound(f.h4 as int, g9_19 as int, 110729625, 1051931428);
    ProductBound(f.h5 as int, g8_19 as int, 55364812, 2103862875);
    ProductBound(f.h6 as int, g7_19 as int, 110729625, 1051931428);
    ProductBound(f.h7 as int, g6_19 as int, 55364812, 2103862875);
    ProductBound(f.h8 as int, g5_19 as int, 110729625, 1051931428);
    ProductBound(f.h9 as int, g4_19 as int, 55364812, 2103862875);
    h := Wide(f.h0, g.h3) + Wide(f.h1, g.h2) + Wide(f.h2, g.h1) + Wide(f.h3, g.h0) + Wide(f.h4, g9_19)
         + Wide(f.h5, g8_19) + Wide(f.h6, g7_19) + Wide(f.h7, g6_19) + Wide(f.h8, g5_19) + Wide(f.h9, g4_19);
  }

  method MulLimb4(f: Fe, g: Fe) returns (h: int64)
    requires Within(f, LOOSE) && Within(g, LOOSE)
    ensures -WIDE <= h as int <= WIDE
    ensures h as int == Fold4(Products(Ints(f), Ints(g)))
  {
    var f1_2: int32 := 2 * f.h1;
    var f3_2: int32 := 2 * f.h3;
    var f5_2: int32 := 2 * f.h5;
    var f7_2: int32 := 2 * f.h7;
    var f9_2: int32 := 2 * f.h9;
    var g5_19: int32 := 19 * g.h5;
    var g6_19: int32 := 19 * g.h6;
    var g7_19: int32 := 19 * g.h7;
    var g8_19: int32 := 19 * g.h8;
    var g9_19: int32 := 19 * g.h9;
    ProductBound(f.h0 as int, g.h4 as int, 110729625, 110729625);
    ProductBound(f1_2 as int, g.h3 as int, 110729624, 55364812);
    ProductBound(f.h2 as int, g.h2 as int, 110729625, 110729625);
    ProductBound(f3_2 as int, g.h1 as int, 110729624, 55364812);
    ProductBound(f.h4 as int, g.h0 as int, 110729625, 110729625);
    ProductBound(f5_2 as int, g9_19 as int, 110729624, 1051931428);
    ProductBound(f.h6 as int, g8_19 as int, 110729625, 2103862875);
    ProductBound(f7_2 as int, g7_19 as int, 110729624, 1051931428);
    ProductBound(f.h8 as int, g6_19 as int, 110729625, 2103862875);
    ProductBound(f9_2 as int, g5_19 as int, 110729624, 1051931428);
    h := Wide(f.h0, g.h4) + Wide(f1_2, g.h3) + Wide(f.h2, g.h2) + Wide(f3_2, g.h1) + Wide(f.h4, g.h0)
         + Wide(f5_2, g9_19) + Wide(f.h6, g8_19) + Wide(f7_2, g7_19) + Wide(f.h8, g6_19) + Wide(f9_2, g5_19);
  }

  method MulLimb5(f: Fe, g: Fe) returns (h: int64)
    requires Within(f, LOOSE) && Within(g, LOOSE)
    ensures -WIDE <= h as int <= WIDE
    ensures h as int == Fold5(Products(Ints(f), Ints(g)))
  {
    var g6_19: int32 := 19 * g.h6;
    var g7_19: int32 := 19 * g.h7;
    var g8_19: int32 := 19 * g.h8;
    var g9_19: int32 := 19 * g.h9;
    ProductBound(f.h0 as int, g.h5 as int, 110729625, 55364812);
    ProductBound(f.h1 as int, g.h4 as int, 55364812, 110729625);
    ProductBound(f.h2 as int, g.h3 as int, 110729625, 55364812);
    ProductBound(f.h3 as int, g.h2 as int, 55364812, 110729625);
    ProductBound(f.h4 as int, g.h1 as int, 110729625, 55364812);
    ProductBound(f.h5 as int, g.h0 as int, 55364812, 110729625);
    ProductBound(f.h6 as int, g9_19 as int, 110729625, 1051931428);
    ProductBound(f.h7 as int, g8_19 as int, 55364812, 2103862875);
    ProductBound(f.h8 as int, g7_19 as int, 110729625, 1051931428);
    ProductBound(f.h9 as int, g6_19 as int, 55364812, 2103862875);
    h := Wide(f.h0, g.h5) + Wide(f.h1, g.h4) + Wide(f.h2, g.h3) + Wide(f.h3, g.h2) + Wide(f.h4, g.h1)
         + Wide(f.h5, g.h0) + Wide(f.h6, g9_19) + Wide(f.h7, g8_19) + Wide(f.h8, g7_19) + Wide(f.h9, g6_19);
  }

  method MulLimb6(f: Fe, g: Fe) returns (h: int64)
    requires Within(f, LOOSE) && Within(g, LOOSE)
    ensures -WIDE <= h as int <= WIDE
    ensures h as int == Fold6(Products(Ints(f), Ints(g)))
  {
    var f1_2: int32 := 2 * f.h1;
    var f3_2: int32 := 2 * f.h3;
    var f5_2: int32 := 2 * f.h5;
    var f7_2: int32 := 2 * f.h7;
    var f9_2: int32 := 2 * f.h9;
    var g7_19: int32 := 19 * g.h7;
    var g8_19: int32 := 19 * g.h8;
    var g9_19: int32 := 19 * g.h9;
    ProductBound(f.h0 as int, g.h6 as int, 110729625, 110729625);
    ProductBound(f1_2 as int, g.h5 as int, 110729624, 55364812);
    ProductBound(f.h2 as int, g.h4 as int, 110729625, 110729625);
    ProductBound(f3_2 as int, g.h3 as int, 110729624, 55364812);
    ProductBound(f.h4 as int, g.h2 as int, 110729625, 110729625);
    ProductBound(f5_2 as int, g.h1 as int, 110729624, 55364812);
    ProductBound(f.h6 as int, g.h0 as int, 110729625, 110729625);
    ProductBound(f7_2 as int, g9_19 as int, 110729624, 1051931428);
    ProductBound(f.h8 as int, g8_19 as int, 110729625, 2103862875);
    ProductBound(f9_2 as int, g7_19 as int, 110729624, 1051931428);
    h := Wide(f.h0, g.h6) + Wide(f1_2, g.h5) + Wide(f.h2, g.h4) + Wide(f3_2, g.h3) + Wide(f.h4, g.h2)
         + Wide(f5_2, g.h1) + Wide(f.h6, g.h0) + Wide(f7_2, g9_19) + Wide(f.h8, g8_19) + Wide(f9_2, g7_19);
  }

  method MulLimb7(f: Fe, g: Fe) returns (h: int64)
    requires Within(f, LOOSE) && Within(g, LOOSE)
    ensures -WIDE <= h as int <= WIDE
    ensures h as int == Fold7(Products(Ints(f), Ints(g)))
  {
    var g8_19: int32 := 19 * g.h8;
    var g9_19: int32 := 19 * g.h9;
    ProductBound(f.h0 as int, g.h7 as int, 110729625, 55364812);
    ProductBound(f.h1 as int, g.h6 as int, 55364812, 110729625);
    ProductBound(f.h2 as int, g.h5 as int, 110729625, 55364812);
    ProductBound(f.h3 as int, g.h4 as int, 55364812, 110729625);
    ProductBound(f.h4 as int, g.h3 as int, 110729625, 55364812);
    ProductBound(f.h5 as int, g.h2 as int, 55364812, 110729625);
    ProductBound(f.h6 as int, g.h1 as int, 110729625, 55364812);
    ProductBound(f.h7 as int, g.h0 as int, 55364812, 110729625);
    ProductBound(f.h8 as int, g9_19 as int, 110729625, 1051931428);
    ProductBound(f.h9 as int, g8_19 as int, 55364812, 2103862875);
    h := Wide(f.h0, g.h7) + Wide(f.h1, g.h6) + Wide(f.h2, g.h5) + Wide(f.h3, g.h4) + Wide(f.h4, g.h3)
         + Wide(f.h5, g.h2) + Wide(f.h6, g.h1) + Wide(f.h7, g.h0) + Wide(f.h8, g9_19) + Wide(f.h9, g8_19);
  }

  method MulLimb8(f: Fe, g: Fe) returns (h: int64)
    requires Within(f, LOOSE) && Within(g, LOOSE)
    ensures -WIDE <= h as int <= WIDE
    ensures h as int == Fold8(Products(Ints(f), Ints(g)))
  {
    var f1_2: int32 := 2 * f.h1;
    var f3_2: int32 := 2 * f.h3;
    var f5_2: int32 := 2 * f.h5;
    var f7_2: int32 := 2 * f.h7;
    var f9_2: int32 := 2 * f.h9;
    var g9_19: int32 := 19 * g.h9;
    ProductBound(f.h0 as int, g.h8 as int, 110729625, 110729625);
    ProductBound(f1_2 as int, g.h7 as int, 110729624, 55364812);
    ProductBound(f.h2 as int, g.h6 as int, 110729625, 110729625);
    ProductBound(f3_2 as int, g.h5 as int, 110729624, 55364812);
    ProductBound(f.h4 as int, g.h4 as int, 110729625, 110729625);
    ProductBound(f5_2 as int, g.h3 as int, 110729624, 55364812);
    ProductBound(f.h6 as int, g.h2 as int, 110729625, 110729625);
    ProductBound(f7_2 as int, g.h1 as int, 110729624, 55364812);
    ProductBound(f.h8 as int, g.h0 as int, 110729625, 110729625);
    ProductBound(f9_2 as int, g9_19 as int, 110729624, 1051931428);
    h := Wide(f.h0, g.h8) + Wide(f1_2, g.h7) + Wide(f.h2, g.h6) + Wide(f3_2, g.h5) + Wide(f.h4, g.h4)
         + Wide(f5_2, g.h3) + Wide(f.h6, g.h2) + Wide(f7_2, g.h1) + Wide(f.h8, g.h0) + Wide(f9_2, g9_19);
  }

  method MulLimb9(f: Fe, g: Fe) returns (h: int64)
    requires Within(f, LOOSE) && Within(g, LOOSE)
    ensures -WIDE <= h as int <= WIDE
    ensures h as int == Fold9(Products(Ints(f), Ints(g)))
  {
    ProductBound(f.h0 as int, g.h9 as int, 110729625, 55364812);
    ProductBound(f.h1 as int, g.h8 as int, 55364812, 110729625);
    ProductBound(f.h2 as int, g.h7 as int, 110729625, 55364812);
    ProductBound(f.h3 as int, g.h6 as int, 55364812, 110729625);
    ProductBound(f.h4 as int, g.h5 as int, 110729625, 55364812);
    ProductBound(f.h5 as int, g.h4 as int, 55364812, 110729625);
    ProductBound(f.h6 as int, g.h3 as int, 110729625, 55364812);
    ProductBound(f.h7 as int, g.h2 as int, 55364812, 110729625);
    ProductBound(f.h8 as int, g.h1 as int, 110729625, 55364812);
    ProductBound(f.h9 as int, g.h0 as int, 55364812, 110729625);
    h := Wide(f.h0, g.h9) + Wide(f.h1, g.h8) + Wide(f.h2, g.h7) + Wide(f.h3, g.h6) + Wide(f.h4, g.h5)
         + Wide(f.h5, g.h4) + Wide(f.h6, g.h3) + Wide(f.h7, g.h2) + Wide(f.h8, g.h1) + Wide(f.h9, g.h0);
  }

  ghost predicate Moderate(h: int64) {
    -2 * WIDE <= h as int <= 2 * WIDE
  }

  // The twelve carries of fe_mul, fe_sq and fe_sq2. The carry out of limb 9 returns to limb 0 times 19.
  method CarryProduct(a0: int64, a1: int64, a2: int64, a3: int64, a4: int64,
                      a5: int64, a6: int64, a7: int64, a8: int64, a9: int64) returns (h: Fe)
    requires Moderate(a0) && Moderate(a1) && Moderate(a2) && Moderate(a3) && Moderate(a4)
    requires Moderate(a5) && Moderate(a6) && Moderate(a7) && Moderate(a8) && Moderate(a9)
    ensures Within(h, TIGHT)
    ensures Cong(Value(h), Eval(Vec(a0 as int, a1 as int, a2 as int, a3 as int, a4 as int,
                                    a5 as int, a6 as int, a7 as int, a8 as int, a9 as int)))
  {
    var h0, h1, h2, h3, h4 := a0, a1, a2, a3, a4;
    var h5, h6, h7, h8, h9 := a5, a6, a7, a8, a9;
    var carry;
    carry, h0 := Round26(h0);
    h1 := h1 + carry;
    carry, h4 := Round26(h4);
    h5 := h5 + carry;
    carry, h1 := Round25(h1);
    h2 := h2 + carry;
    carry, h5 := Round25(h5);
    h6 := h6 + carry;
    carry, h2 := Round26(h2);
    h3 := h3 + carry;
    carry, h6 := Round26(h6);
    h7 := h7 + carry;
    carry, h3 := Round25(h3);
    h4 := h4 + carry;
    carry, h7 := Round25(h7);
    h8 := h8 + carry;
    carry, h4 := Round26(h4);
    h5 := h5 + carry;
    carry, h8 := Round26(h8);
    h9 := h9 + carry;
    carry, h9 := Round25(h9);
    h0 := h0 + carry * 19;
    ghost var wrapped := carry as int;
    carry, h0 := Round26(h0);
    h1 := h1 + carry;
    h := Fe(h0 as int32, h1 as int32, h2 as int32, h3 as int32, h4 as int32,
            h5 as int32, h6 as int32, h7 as int32, h8 as int32, h9 as int32);
    ValueMeaning(h);
    CongWitness(Value(h), Eval(Vec(a0 as int, a1 as int, a2 as int, a3 as int, a4 as int,
                                   a5 as int, a6 as int, a7 as int, a8 as int, a9 as int)), -wrapped);
  }

  ghost predicate Small(even: int64, odd: int64) {
    -0x900_0000_0000 <= even as int <= 0x900_0000_0000 && -0x480_0000_0000 <= odd as int <= 0x480_0000_0000
  }

  // The ten carries of fe_frombytes and fe_mul121666: first out of the odd limbs, then out of the even ones.
  method CarryOddEven(a0: int64, a1: int64, a2: int64, a3: int64, a4: int64,
                      a5: int64, a6: int64, a7: int64, a8: int64, a9: int64) returns (h: Fe)
    requires Small(a0, a1) && Small(a2, a3) && Small(a4, a5) && Small(a6, a7) && Small(a8, a9)
    ensures Within(h, TIGHT)
    ensures Cong(Value(h), Eval(Vec(a0 as int, a1 as int, a2 as int, a3 as int, a4 as int,
                                    a5 as int, a6 as int, a7 as int, a8 as int, a9 as int)))
  {
    var h0, h1, h2, h3, h4 := a0, a1, a2, a3, a4;
    var h5, h6, h7, h8, h9 := a5, a6, a7, a8, a9;
    var carry;
    carry, h9 := Round25(h9);
    h0 := h0 + carry * 19;
    ghost var wrapped := carry as int;
    carry, h1 := Round25(h1);
    h2 := h2 + carry;
    carry, h3 := Round25(h3);
    h4 := h4 + carry;
    carry, h5 := Round25(h5);
    h6 := h6 + carry;
    carry, h7 := Round25(h7);
    h8 := h8 + carry;
    carry, h0 := Round26(h0);
    h1 := h1 + carry;
    carry, h2 := Round26(h2);
    h3 := h3 + carry;
    carry, h4 := Round26(h4);
    h5 := h5 + carry;
    carry, h6 := Round26(h6);
    h7 := h7 + carry;
    carry, h8 := Round26(h8);
    h9 := h9 + carry;
    h := Fe(h0 as int32, h1 as int32, h2 as int32, h3 as int32, h4 as int32,
            h5 as int32, h6 as int32, h7 as int32, h8 as int32, h9 as int32);
    ValueMeaning(h);
    CongWitness(Value(h), Eval(Vec(a0 as int, a1 as int, a2 as int, a3 as int, a4 as int,
                                   a5 as int, a6 as int, a7 as int, a8 as int, a9 as int)), -wrapped);
  }

  // h = f * g (mod p). Inputs up to 1.65 * 2^26, output at most 1.01 * 2^25, with no overflow on the way.
  method Mul(f: Fe, g: Fe) returns (h: Fe)
    requires Within(f, LOOSE) && Within(g, LOOSE)
    ensures Within(h, TIGHT)
    ensures Cong(Value(h), Value(f) * Value(g))
  {
    hide Fold0, Fold1, Fold2, Fold3, Fold4, Fold5, Fold6, Fold7, Fold8, Fold9, Products, Eval, Cong, Within, Ints;
    var h0 := MulLimb0(f, g);
    var h1 := MulLimb1(f, g);
    var h2 := MulLimb2(f, g);
    var h3 := MulLimb3(f, g);
    var h4 := MulLimb4(f, g);
    var h5 := MulLimb5(f, g);
    var h6 := MulLimb6(f, g);
    var h7 := MulLimb7(f, g);
    var h8 := MulLimb8(f, g);
    var h9 := MulLimb9(f, g);
    h := CarryProduct(h0, h1, h2, h3, h4, h5, h6, h7, h8, h9);
    ValueMeaning(f);
    ValueMeaning(g);
    SchoolbookValue(Ints(f), Ints(g));
    CongTrans(Value(h), Eval(Fold(Products(Ints(f), Ints(g)))), Value(f) * Value(g));
  }

  // The ten sums of fe_sq, which adds f_i f_j and f_j f_i once, doubled.

  method SquareLimb0(f: Fe) returns (h: int64)
    requires Within(f, LOOSE)
    ensures -WIDE <= h as int <= WIDE
    ensures h as int == Fold0(Products(Ints(f), Ints(f)))
  {
    var f1_2: int32 := 2 * f.h1;
    var f2_2: int32 := 2 * f.h2;
    var f3_2: int32 := 2 * f.h3;
    var f4_2: int32 := 2 * f.h4;
    var f5_38: int32 := 38 * f.h5;
    var f6_19: int32 := 19 * f.h6;
    var f7_38: int32 := 38 * f.h7;
    var f8_19: int32 := 19 * f.h8;
    var f9_38: int32 := 38 * f.h9;
    ProductBound(f.h0 as int, f.h0 as int, 110729625, 110729625);
    ProductBound(f1_2 as int, f9_38 as int, 110729624, 2103862856);
    ProductBound(f2_2 as int, f8_19 as int, 221459250, 2103862875);
    ProductBound(f3_2 as int, f7_38 as int, 110729624, 2103862856);
    ProductBound(f4_2 as int, f6_19 as int, 221459250, 2103862875);
    ProductBound(f.h5 as int, f5_38 as int, 55364812, 2103862856);
    h := Wide(f.h0, f.h0) + Wide(f1_2, f9_38) + Wide(f2_2, f8_19) + Wide(f3_2, f7_38) + Wide(f4_2, f6_19)
        + Wide(f.h5, f5_38);
  }

  method SquareLimb1(f: Fe) returns (h: int64)
    requires Within(f, LOOSE)
    ensures -WIDE <= h as int <= WIDE
    ensures h as int == Fold1(Products(Ints(f), Ints(f)))
  {
    var f0_2: int32 := 2 * f.h0;
    var f3_2: int32 := 2 * f.h3;
    var f5_2: int32 := 2 * f.h5;
    var f6_19: int32 := 19 * f.h6;
    var f7_38: int32 := 38 * f.h7;
    var f8_19: int32 := 19 * f.h8;
    var f9_38: int32 := 38 * f.h9;
    ProductBound(f0_2 as int, f.h1 as int, 221459250, 55364812);
    ProductBound(f.h2 as int, f9_38 as int, 110729625, 2103862856);
    ProductBound(f3_2 as int, f8_19 as int, 110729624, 2103862875);
    ProductBound(f.h4 as int, f7_38 as int, 110729625, 2103862856);
    ProductBound(f5_2 as int, f6_19 as int, 110729624, 2103862875);
    h := Wide(f0_2, f.h1) + Wide(f.h2, f9_38) + Wide(f3_2, f8_19) + Wide(f.h4, f7_38) + Wide(f5_2, f6_19);
  }

  method SquareLimb2(f: Fe) returns (h: int64)
    requires Within(f, LOOSE)
    ensures -WIDE <= h as int <= WIDE
    ensures h as int == Fold2(Products(Ints(f), Ints(f)))
  {
    var f0_2: int32 := 2 * f.h0;
    var f1_2: int32 := 2 * f.h1;
    var f3_2: int32 := 2 * f.h3;
    var f4_2: int32 := 2 * f.h4;
    var f5_2: int32 := 2 * f.h5;
    var f6_19: int32 := 19 * f.h6;
    var f7_38: int32 := 38 * f.h7;
    var f8_19: int32 := 19 * f.h8;
    var f9_38: int32 := 38 * f.h9;
    ProductBound(f0_2 as int, f.h2 as int, 221459250, 110729625);
    ProductBound(f1_2 as int, f.h1 as int, 110729624, 55364812);
    ProductBound(f3_2 as int, f9_38 as int, 110729624, 2103862856);
    ProductBound(f4_2 as int, f8_19 as int, 221459250, 2103862875);
    ProductBound(f5_2 as int, f7_38 as int, 110729624, 2103862856);
    ProductBound(f.h6 as int, f6_19 as int, 110729625, 2103862875);
    h := Wide(f0_2, f.h2) + Wide(f1_2, f.h1) + Wide(f3_2, f9_38) + Wide(f4_2, f8_19) + Wide(f5_2, f7_38)
        + Wide(f.h6, f6_19);
  }

  method SquareLimb3(f: Fe) returns (h: int64)
    requires Within(f, LOOSE)
    ensures -WIDE <= h as int <= WIDE
    ensures h as int == Fold3(Products(Ints(f), Ints(f)))
  {
    var f0_2: int32 := 2 * f.h0;
    var f1_2: int32 := 2 * f.h1;
    var f5_2: int32 := 2 * f.h5;
    var f7_38: int32 := 38 * f.h7;
    var f8_19: int32 := 19 * f.h8;
    var f9_38: int32 := 38 * f.h9;
    ProductBound(f0_2 as int, f.h3 as int, 221459250, 55364812);
    ProductBound(f1_2 as int, f.h2 as int, 110729624, 110729625);
    ProductBound(f.h4 as int, f9_38 as int, 110729625, 2103862856);
    ProductBound(f5_2 as int, f8_19 as int, 110729624, 2103862875);
    ProductBound(f.h6 as int, f7_38 as int, 110729625, 2103862856);
    h := Wide(f0_2, f.h3) + Wide(f1_2, f.h2) + Wide(f.h4, f9_38) + Wide(f5_2, f8_19) + Wide(f.h6, f7_38);
  }

  method SquareLimb4(f: Fe) returns (h: int64)
    requires Within(f, LOOSE)
    ensures -WIDE <= h as int <= WIDE
    ensures h as int == Fold4(Products(Ints(f), Ints(f)))
  {
    var f0_2: int32 := 2 * f.h0;
    var f1_2: int32 := 2 * f.h1;
    var f3_2: int32 := 2 * f.h3;
    var f5_2: int32 := 2 * f.h5;
    var f6_2: int32 := 2 * f.h6;
    var f7_38: int32 := 38 * f.h7;
    var f8_19: int32 := 19 * f.h8;
    var f9_38: int32 := 38 * f.h9;
    ProductBound(f0_2 as int, f.h4 as int, 221459250, 110729625);
    ProductBound(f1_2 as int, f3_2 as int, 110729624, 110729624);
    ProductBound(f.h2 as int, f.h2 as int, 110729625, 110729625);
    ProductBound(f5_2 as int, f9_38 as int, 110729624, 2103862856);
    ProductBound(f6_2 as int, f8_19 as int, 221459250, 2103862875);
    ProductBound(f.h7 as int, f7_38 as int, 55364812, 2103862856);
    h := Wide(f0_2, f.h4) + Wide(f1_2, f3_2) + Wide(f.h2, f.h2) + Wide(f5_2, f9_38) + Wide(f6_2, f8_19)
        + Wide(f.h7, f7_38);
  }

  method SquareLimb5(f: Fe) returns (h: int64)
    requires Within(f, LOOSE)
    ensures -WIDE <= h as int <= WIDE
    ensures h as int == Fold5(Products(Ints(f), Ints(f)))
  {
    var f0_2: int32 := 2 * f.h0;
    var f1_2: int32 := 2 * f.h1;
    var f2_2: int32 := 2 * f.h2;
    var f7_2: int32 := 2 * f.h7;
    var f8_19: int32 := 19 * f.h8;
    var f9_38: int32 := 38 * f.h9;
    ProductBound(f0_2 as int, f.h5 as int, 221459250, 55364812);
    ProductBound(f1_2 as int, f.h4 as int, 110729624, 110729625);
    ProductBound(f2_2 as int, f.h3 as int, 221459250, 55364812);
    ProductBound(f.h6 as int, f9_38 as int, 110729625, 2103862856);
    ProductBound(f7_2 as int, f8_19 as int, 110729624, 2103862875);
    h := Wide(f0_2, f.h5) + Wide(f1_2, f.h4) + Wide(f2_2, f.h3) + Wide(f.h6, f9_38) + Wide(f7_2, f8_19);
  }

  method SquareLimb6(f: Fe) returns (h: int64)
    requires Within(f, LOOSE)
    ensures -WIDE <= h as int <= WIDE
    ensures h as int == Fold6(Products(Ints(f), Ints(f)))
  {
    var f0_2: int32 := 2 * f.h0;
    var f1_2: int32 := 2 * f.h1;
    var f2_2: int32 := 2 * f.h2;
    var f3_2: int32 := 2 * f.h3;
    var f5_2: int32 := 2 * f.h5;
    var f7_2: int32 := 2 * f.h7;
    var f8_19: int32 := 19 * f.h8;
    var f9_38: int32 := 38 * f.h9;
    ProductBound(f0_2 as int, f.h6 as int, 221459250, 110729625);
    ProductBound(f1_2 as int, f5_2 as int, 110729624, 110729624);
    ProductBound(f2_2 as int, f.h4 as int, 221459250, 110729625);
    ProductBound(f3_2 as int, f.h3 as int, 110729624, 55364812);
    ProductBound(f7_2 as int, f9_38 as int, 110729624, 2103862856);
    ProductBound(f.h8 as int, f8_19 as int, 110729625, 2103862875);
    h := Wide(f0_2, f.h6) + Wide(f1_2, f5_2) + Wide(f2_2, f.h4) + Wide(f3_2, f.h3) + Wide(f7_2, f9_38)
        + Wide(f.h8, f8_19);
  }

  method SquareLimb7(f: Fe) returns (h: int64)
    requires Within(f, LOOSE)
    ensures -WIDE <= h as int <= WIDE
    ensures h as int == Fold7(Products(Ints(f), Ints(f)))
  {
    var f0_2: int32 := 2 * f.h0;
    var f1_2: int32 := 2 * f.h1;
    var f2_2: int32 := 2 * f.h2;
    var f3_2: int32 := 2 * f.h3;
    var f9_38: int32 := 38 * f.h9;
    ProductBound(f0_2 as int, f.h7 as int, 221459250, 55364812);
    ProductBound(f1_2 as int, f.h6 as int, 110729624, 110729625);
    ProductBound(f2_2 as int, f.h5 as int, 221459250, 55364812);
    ProductBound(f3_2 as int, f.h4 as int, 110729624, 110729625);
    ProductBound(f.h8 as int, f9_38 as int, 110729625, 2103862856);
    h := Wide(f0_2, f.h7) + Wide(f1_2, f.h6) + Wide(f2_2, f.h5) + Wide(f3_2, f.h4) + Wide(f.h8, f9_38);
  }

  method SquareLimb8(f: Fe) returns (h: int64)
    requires Within(f, LOOSE)
    ensures -WIDE <= h as int <= WIDE
    ensures h as int == Fold8(Products(Ints(f), Ints(f)))
  {
    var f0_2: int32 := 2 * f.h0;
    var f1_2: int32 := 2 * f.h1;
    var f2_2: int32 := 2 * f.h2;
    var f3_2: int32 := 2 * f.h3;
    var f5_2: int32 := 2 * f.h5;
    var f7_2: int32 := 2 * f.h7;
    var f9_38: int32 := 38 * f.h9;
    ProductBound(f0_2 as int, f.h8 as int, 221459250, 110729625);
    ProductBound(f1_2 as int, f7_2 as int, 110729624, 110729624);
    ProductBound(f2_2 as int, f.h6 as int, 221459250, 110729625);
    ProductBound(f3_2 as int, f5_2 as int, 110729624, 110729624);
    ProductBound(f.h4 as int, f.h4 as int, 110729625, 110729625);
    ProductBound(f.h9 as int, f9_38 as int, 55364812, 2103862856);
    h := Wide(f0_2, f.h8) + Wide(f1_2, f7_2) + Wide(f2_2, f.h6) + Wide(f3_2, f5_2) + Wide(f.h4, f.h4)
        + Wide(f.h9, f9_38);
  }

  method SquareLimb9(f: Fe) returns (h: int64)
    requires Within(f, LOOSE)
    ensures -WIDE <= h as int <= WIDE
    ensures h as int == Fold9(Products(Ints(f), Ints(f)))
  {
    var f0_2: int32 := 2 * f.h0;
    var f1_2: int32 := 2 * f.h1;
    var f2_2: int32 := 2 * f.h2;
    var f3_2: int32 := 2 * f.h3;
    var f4_2: int32 := 2 * f.h4;
    ProductBound(f0_2 as int, f.h9 as int, 221459250, 55364812);
    ProductBound(f1_2 as int, f.h8 as int, 110729624, 110729625);
    ProductBound(f2_2 as int, f.h7 as int, 221459250, 55364812);
    ProductBound(f3_2 as int, f.h6 as int, 110729624, 110729625);
    ProductBound(f4_2 as int, f.h5 as int, 221459250, 55364812);
    h := Wide(f0_2, f.h9) + Wide(f1_2, f.h8) + Wide(f2_2, f.h7) + Wide(f3_2, f.h6) + Wide(f4_2, f.h5);
  }

  // h = f * f (mod p)
  method Square(f: Fe) returns (h: Fe)
    requires Within(f, LOOSE)
    ensures Within(h, TIGHT)
    ensures Cong(Value(h), Value(f) * Value(f))
  {
    hide Fold0, Fold1, Fold2, Fold3, Fold4, Fold5, Fold6, Fold7, Fold8, Fold9, Products, Eval, Cong, Within, Ints;
    var h0 := SquareLimb0(f);
    var h1 := SquareLimb1(f);
    var h2 := SquareLimb2(f);
    var h3 := SquareLimb3(f);
    var h4 := SquareLimb4(f);
    var h5 := SquareLimb5(f);
    var h6 := SquareLimb6(f);
    var h7 := SquareLimb7(f);
    var h8 := SquareLimb8(f);
    var h9 := SquareLimb9(f);
    h := CarryProduct(h0, h1, h2, h3, h4, h5, h6, h7, h8, h9);
    ValueMeaning(f);
    SchoolbookValue(Ints(f), Ints(f));
    CongTrans(Value(h), Eval(Fold(Products(Ints(f), Ints(f)))), Value(f) * Value(f));
  }

  // h = 2 * f * f (mod p): the sums of fe_sq are doubled before the carries.
  method SquareTwice(f: Fe) returns (h: Fe)
    requires Within(f, LOOSE)
    ensures Within(h, TIGHT)
    ensures Cong(Value(h), 2 * (Value(f) * Value(f)))
  {
    hide Fold0, Fold1, Fold2, Fold3, Fold4, Fold5, Fold6, Fold7, Fold8, Fold9, Products, Cong, Within, Ints;
    var h0 := SquareLimb0(f);
    var h1 := SquareLimb1(f);
    var h2 := SquareLimb2(f);
    var h3 := SquareLimb3(f);
    var h4 := SquareLimb4(f);
    var h5 := SquareLimb5(f);
    var h6 := SquareLimb6(f);
    var h7 := SquareLimb7(f);
    var h8 := SquareLimb8(f);
    var h9 := SquareLimb9(f);
    h := CarryProduct(h0 + h0, h1 + h1, h2 + h2, h3 + h3, h4 + h4, h5 + h5, h6 + h6, h7 + h7, h8 + h8, h9 + h9);
    var s := Fold(Products(Ints(f), Ints(f)));
    ValueMeaning(f);
    SchoolbookValue(Ints(f), Ints(f));
    CongMul(2, 2, Eval(s), Value(f) * Value(f)) by {
      CongWitness(2, 2, 0);
    }
    CongTrans(Value(h), 2 * Eval(s), 2 * (Value(f) * Value(f)));
  }

  // h = 121666 * f (mod p)
  method Mul121666(f: Fe) returns (h: Fe)
    requires Within(f, MEDIUM)
    ensures Within(h, TIGHT)
    ensures Cong(Value(h), 121666 * Value(f))
  {
    var h0, h1, h2, h3, h4 :=
        Wide(f.h0, 121666), Wide(f.h1, 121666), Wide(f.h2, 121666), Wide(f.h3, 121666), Wide(f.h4, 121666);
    var h5, h6, h7, h8, h9 :=
        Wide(f.h5, 121666), Wide(f.h6, 121666), Wide(f.h7, 121666), Wide(f.h8, 121666), Wide(f.h9, 121666);
    hide Eval, Cong;
    ValueMeaning(f);
    EvalScale(121666, Ints(f));
    assert Vec(h0 as int, h1 as int, h2 as int, h3 as int, h4 as int,
               h5 as int, h6 as int, h7 as int, h8 as int, h9 as int) == Scale(121666, Ints(f));
    h := CarryOddEven(h0, h1, h2, h3, h4, h5, h6, h7, h8, h9);
  }
}
