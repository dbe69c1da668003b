// ntfe/ed25519/ge.c: points of the curve in the coordinate systems of the C structures, and the formulas that add,
// subtract and double them. Each method performs the field operations of its C function in order; the bounds that
// fe_mul and fe_sq need are carried along, so no limb overflows.
module GroupElements {
  import opened Congruence
  import opened Limbs
  import opened FieldArithmetic
  import opened EdwardsCurve

  datatype P2 = P2(X: Fe, Y: Fe, Z: Fe)
  datatype P3 = P3(X: Fe, Y: Fe, Z: Fe, T: Fe)
  datatype P1P1 = P1P1(X: Fe, Y: Fe, Z: Fe, T: Fe)
  datatype Cached = Cached(YplusX: Fe, YminusX: Fe, Z: Fe, T2d: Fe)
  datatype Precomp = Precomp(yplusx: Fe, yminusx: Fe, xy2d: Fe)

  const DOUBLE := TIGHT.Plus(TIGHT)
  const TRIPLE := TIGHT.Plus(DOUBLE)

  // ----- which point a structure stands for -----

  // (X : Y : Z) with x = X / Z and y = Y / Z
  ghost predicate IsP2(h: P2, p: Point) {
    && Within(h.X, TIGHT) && Within(h.Y, TIGHT) && Within(h.Z, TIGHT)
    && Scaled(p, Value(h.X), Value(h.Y), Value(h.Z))
  }

  // These relations are stepped definitions, too.
  ghost predicate Scaled(p: Point, x: int, y: int, z: int) {
    ScaledSteps(p, x, y, z, 4)
  }

  ghost predicate ScaledSteps(p: Point, x: int, y: int, z: int, n: nat)
    decreases n, p, x, y, z
  {
    if n == 0 then !Cong(z, 0) && Cong(x, p.x * z) && Cong(y, p.y * z) else ScaledSteps(p, x, y, z, n - 1)
  }

  lemma ScaledMeaning(p: Point, x: int, y: int, z: int)
    ensures Scaled(p, x, y, z) <==> !Cong(z, 0) && Cong(x, p.x * z) && Cong(y, p.y * z)
  {
    assert ScaledSteps(p, x, y, z, 4) == ScaledSteps(p, x, y, z, 3);
    assert ScaledSteps(p, x, y, z, 3) == ScaledSteps(p, x, y, z, 2);
    assert ScaledSteps(p, x, y, z, 2) == ScaledSteps(p, x, y, z, 1);
    assert ScaledSteps(p, x, y, z, 1) == ScaledSteps(p, x, y, z, 0);
  }

  // (X : Y : Z : T) with also X Y = Z T
  ghost predicate IsP3(h: P3, p: Point) {
    && Within(h.X, TIGHT) && Within(h.Y, TIGHT) && Within(h.Z, TIGHT) && Within(h.T, TIGHT)
    && Scaled(p, Value(h.X), Value(h.Y), Value(h.Z))
    && ScaledProductOf(p, Value(h.T), Value(h.Z))
  }

  ghost predicate ScaledProductOf(p: Point, t: int, z: int) {
    ScaledProductOfSteps(p, t, z, 4)
  }

  ghost predicate ScaledProductOfSteps(p: Point, t: int, z: int, n: nat)
    decreases n, p, t, z
  {
    if n == 0 then Cong(t, (p.x * p.y) * z) else ScaledProductOfSteps(p, t, z, n - 1)
  }

  lemma ScaledProductOfMeaning(p: Point, t: int, z: int)
    ensures ScaledProductOf(p, t, z) <==> Cong(t, (p.x * p.y) * z)
  {
    assert ScaledProductOfSteps(p, t, z, 4) == ScaledProductOfSteps(p, t, z, 3);
    assert ScaledProductOfSteps(p, t, z, 3) == ScaledProductOfSteps(p, t, z, 2);
    assert ScaledProductOfSteps(p, t, z, 2) == ScaledProductOfSteps(p, t, z, 1);
    assert ScaledProductOfSteps(p, t, z, 1) == ScaledProductOfSteps(p, t, z, 0);
  }

  // ((X : Z), (Y : T)) with x = X / Z and y = Y / T
  ghost predicate IsP1P1(h: P1P1, p: Point) {
    && Within(h.X, TRIPLE) && Within(h.Y, TRIPLE) && Within(h.Z, TRIPLE) && Within(h.T, TRIPLE)
    && Completed(p, Value(h.X), Value(h.Y), Value(h.Z), Value(h.T))
  }

  ghost predicate Completed(p: Point, x: int, y: int, z: int, t: int) {
    CompletedSteps(p, x, y, z, t, 4)
  }

  ghost predicate CompletedSteps(p: Point, x: int, y: int, z: int, t: int, n: nat)
    decreases n, p, x, y, z, t
  {
    if n == 0 then !Cong(z, 0) && !Cong(t, 0) && Cong(x, p.x * z) && Cong(y, p.y * t)
    else CompletedSteps(p, x, y, z, t, n - 1)
  }

  lemma CompletedMeaning(p: Point, x: int, y: int, z: int, t: int)
    ensures Completed(p, x, y, z, t) <==> !Cong(z, 0) && !Cong(t, 0) && Cong(x, p.x * z) && Cong(y, p.y * t)
  {
    assert CompletedSteps(p, x, y, z, t, 4) == CompletedSteps(p, x, y, z, t, 3);
    assert CompletedSteps(p, x, y, z, t, 3) == CompletedSteps(p, x, y, z, t, 2);
    assert CompletedSteps(p, x, y, z, t, 2) == CompletedSteps(p, x, y, z, t, 1);
    assert CompletedSteps(p, x, y, z, t, 1) == CompletedSteps(p, x, y, z, t, 0);
  }

  // (Y + X, Y - X, Z, 2 d T)
  ghost predicate IsCached(c: Cached, p: Point) {
    && Within(c.YplusX, DOUBLE) && Within(c.YminusX, DOUBLE) && Within(c.Z, TIGHT) && Within(c.T2d, TIGHT)
    && Operand(p, Value(c.YplusX), Value(c.YminusX), Value(c.Z), Value(c.T2d))
  }

  // (y + x, y - x, 2 d x y)
  ghost predicate IsPrecomp(c: Precomp, p: Point) {
    && Within(c.yplusx, TIGHT) && Within(c.yminusx, TIGHT) && Within(c.xy2d, TIGHT)
    && Operand(p, Value(c.yplusx), Value(c.yminusx), 1, Value(c.xy2d))
  }

  ghost predicate Operand(p: Point, plus: int, minus: int, z: int, t2d: int) {
    OperandSteps(p, plus, minus, z, t2d, 4)
  }

  ghost predicate OperandSteps(p: Point, plus: int, minus: int, z: int, t2d: int, n: nat)
    decreases n, p, plus, minus, z, t2d
  {
    if n == 0 then
      && !Cong(z, 0)
      && Cong(plus, (p.y + p.x) * z)
      && Cong(minus, (p.y - p.x) * z)
      && Cong(t2d, (2 * (D * (p.x * p.y))) * z)
    else OperandSteps(p, plus, minus, z, t2d, n - 1)
  }

  lemma OperandMeaning(p: Point, plus: int, minus: int, z: int, t2d: int)
    ensures Operand(p, plus, minus, z, t2d) <==>
              && !Cong(z, 0)
              && Cong(plus, (p.y + p.x) * z)
              && Cong(minus, (p.y - p.x) * z)
              && Cong(t2d, (2 * (D * (p.x * p.y))) * z)
  {
    assert OperandSteps(p, plus, minus, z, t2d, 4) == OperandSteps(p, plus, minus, z, t2d, 3);
    assert OperandSteps(p, plus, minus, z, t2d, 3) == OperandSteps(p, plus, minus, z, t2d, 2);
    assert OperandSteps(p, plus, minus, z, t2d, 2) == OperandSteps(p, plus, minus, z, t2d, 1);
    assert OperandSteps(p, plus, minus, z, t2d, 1) == OperandSteps(p, plus, minus, z, t2d, 0);
  }

  // ----- the algebra of the unified addition -----

  lemma ScaledProduct(f: int, g: int, x: int, y: int, z1: int, z2: int)
    requires Cong(f, x * z1) && Cong(g, y * z2)
    ensures Cong(f * g, (x * y) * (z1 * z2))
  {
    hide *;
    CongMul(f, x * z1, g, y * z2);
    Regroup(x, z1, y, z2);
  }

  lemma ScaledSum(f: int, g: int, x: int, y: int, z: int)
    requires Cong(f, x * z) && Cong(g, y * z)
    ensures Cong(f + g, (x + y) * z) && Cong(f - g, (x - y) * z)
  {
    hide *;
    CongAdd(f, x * z, g, y * z);
    assert x * z + y * z == (x + y) * z && x * z - y * z == (x - y) * z;
  }

  // What ge_add has before its last four lines: (y1 + x1)(y2 + x2) w, (y1 - x1)(y2 - x2) w, 2 d x1 x2 y1 y2 w and 2 w.
  ghost predicate FourProducts(p: Point, q: Point, w: int, a: int, b: int, c: int, d: int) {
    FourProductsSteps(p, q, w, a, b, c, d, 4)
  }

  ghost predicate FourProductsSteps(p: Point, q: Point, w: int, a: int, b: int, c: int, d: int, n: nat)
    decreases n, p, q, w, a, b, c, d
  {
    if n == 0 then
      && !Cong(w, 0)
      && Cong(a, ((p.y + p.x) * (q.y + q.x)) * w)
      && Cong(b, ((p.y - p.x) * (q.y - q.x)) * w)
      && Cong(c, (2 * Cross(p, q)) * w)
      && Cong(d, 2 * w)
    else FourProductsSteps(p, q, w, a, b, c, d, n - 1)
  }

  lemma FourProductsMeaning(p: Point, q: Point, w: int, a: int, b: int, c: int, d: int)
    ensures FourProducts(p, q, w, a, b, c, d) <==>
              && !Cong(w, 0)
              && Cong(a, ((p.y + p.x) * (q.y + q.x)) * w)
              && Cong(b, ((p.y - p.x) * (q.y - q.x)) * w)
              && Cong(c, (2 * Cross(p, q)) * w)
              && Cong(d, 2 * w)
  {
    hide Cong, Cross;
    assert FourProductsSteps(p, q, w, a, b, c, d, 4) == FourProductsSteps(p, q, w, a, b, c, d, 3);
    assert FourProductsSteps(p, q, w, a, b, c, d, 3) == FourProductsSteps(p, q, w, a, b, c, d, 2);
    assert FourProductsSteps(p, q, w, a, b, c, d, 2) == FourProductsSteps(p, q, w, a, b, c, d, 1);
    assert FourProductsSteps(p, q, w, a, b, c, d, 1) == FourProductsSteps(p, q, w, a, b, c, d, 0);
  }

  // They combine to the sum of the two points.
  lemma AdditionFormula(p: Point, q: Point, w: int, a: int, b: int, c: int, d: int)
    requires Fermat() && OnCurve(p) && OnCurve(q) && FourProducts(p, q, w, a, b, c, d)
    ensures Completed(Sum(p, q), a - b, a + b, d + c, d - c)
  {
    hide *;
    FourProductsMeaning(p, q, w, a, b, c, d);
    var k, s := Cross(p, q), Sum(p, q);
    var n, m := p.x * q.y + q.x * p.y, p.y * q.y + p.x * q.x;
    Complete(p, q);
    SumFractions(p, q);
    ZeroNotOne();
    NoZeroDivisors(2, w);
    ScaledSum(a, b, (p.y + p.x) * (q.y + q.x), (p.y - p.x) * (q.y - q.x), w);
    AdditionNumerators(p.x, p.y, q.x, q.y);
    ScaledSum(d, c, 2, 2 * k, w);
    MoveTwo(n, w);
    MoveTwo(m, w);
    MoveTwo(1 + k, w);
    MoveTwo(1 - k, w);
    CompleteOne(s.x, n, 1 + k, 2 * w, a - b, d + c);
    CompleteOne(s.y, m, 1 - k, 2 * w, a + b, d - c);
    CompletedMeaning(s, a - b, a + b, d + c, d - c);
  }

  lemma MoveTwo(n: int, w: int)
    ensures (2 * n) * w == n * (2 * w)
  {
  }

  lemma AdditionNumerators(x1: int, y1: int, x2: int, y2: int)
    ensures (y1 + x1) * (y2 + x2) - (y1 - x1) * (y2 - x2) == 2 * (x1 * y2 + x2 * y1)
    ensures (y1 + x1) * (y2 + x2) + (y1 - x1) * (y2 - x2) == 2 * (y1 * y2 + x1 * x2)
  {
  }

  lemma CompleteOne(s: int, n: int, e: int, w: int, numerator: int, denominator: int)
    requires Fermat() && Cong(s * e, n) && !Cong(e, 0) && !Cong(w, 0)
    requires Cong(numerator, n * w) && Cong(denominator, e * w)
    ensures !Cong(denominator, 0) && Cong(numerator, s * denominator)
  {
    hide *;
    NoZeroDivisors(e, w);
    if Cong(denominator, 0) {
      CongSym(denominator, e * w);
      CongTrans(e * w, denominator, 0);
    }
    CongTimes(s * e, n, w);
    assert (s * e) * w == s * (e * w);
    CongTimes(denominator, e * w, s);
    CongSym(s * (e * w), n * w);
    CongTrans(numerator, n * w, s * (e * w));
    CongSym(s * denominator, s * (e * w));
    CongTrans(numerator, s * (e * w), s * denominator);
  }

  // From the field operations of ge_add to AdditionFormula.
  lemma AdditionChain(p: Point, q: Point, X: int, Y: int, Z: int, T: int, plus: int, minus: int, z: int, t2d: int,
                      a: int, b: int, c: int, d: int)
    requires Fermat() && OnCurve(p) && OnCurve(q)
    requires Scaled(p, X, Y, Z) && ScaledProductOf(p, T, Z) && Operand(q, plus, minus, z, t2d)
    requires Cong(a, (Y + X) * plus) && Cong(b, (Y - X) * minus) && Cong(c, t2d * T) && Cong(d, 2 * (Z * z))
    ensures Completed(Sum(p, q), a - b, a + b, d + c, d - c)
  {
    hide *;
    ChainPlus(p, q, X, Y, Z, plus, minus, z, t2d, a);
    ChainMinus(p, q, X, Y, Z, plus, minus, z, t2d, b);
    ChainT(p, q, X, Y, Z, T, plus, minus, z, t2d, c);
    ChainZ(p, q, X, Y, Z, plus, minus, z, t2d);
    FourProductsMeaning(p, q, Z * z, a, b, c, d);
    AdditionFormula(p, q, Z * z, a, b, c, d);
  }

  // The formula at the neutral element twice, with w = 1.
  lemma AdditionOfOrigin()
    requires Fermat()
    ensures Completed(Sum(ORIGIN, ORIGIN), 0, 2, 2, 2)
  {
    hide Cong, Cross, Sum, Completed, FourProducts, Fermat;
    OriginOnCurve();
    CrossOrigin(ORIGIN);
    ZeroNotOne();
    CongSelf(1, ((1 + 0) * (1 + 0)) * 1);
    CongSelf(1, ((1 - 0) * (1 - 0)) * 1);
    CongSelf(0, (2 * 0) * 1);
    CongSelf(2, 2 * 1);
    FourProductsMeaning(ORIGIN, ORIGIN, 1, 1, 1, 0, 2);
    AdditionFormula(ORIGIN, ORIGIN, 1, 1, 1, 0, 2);
  }

  lemma ChainPlus(p: Point, q: Point, X: int, Y: int, Z: int, plus: int, minus: int, z: int, t2d: int, a: int)
    requires Scaled(p, X, Y, Z) && Operand(q, plus, minus, z, t2d) && Cong(a, (Y + X) * plus)
    ensures Cong(a, ((p.y + p.x) * (q.y + q.x)) * (Z * z))
  {
    hide *;
    ScaledMeaning(p, X, Y, Z);
    OperandMeaning(q, plus, minus, z, t2d);
    ScaledSum(Y, X, p.y, p.x, Z);
    ScaledProduct(Y + X, plus, p.y + p.x, q.y + q.x, Z, z);
    CongTrans(a, (Y + X) * plus, ((p.y + p.x) * (q.y + q.x)) * (Z * z));
  }

  lemma ChainMinus(p: Point, q: Point, X: int, Y: int, Z: int, plus: int, minus: int, z: int, t2d: int, b: int)
    requires Scaled(p, X, Y, Z) && Operand(q, plus, minus, z, t2d) && Cong(b, (Y - X) * minus)
    ensures Cong(b, ((p.y - p.x) * (q.y - q.x)) * (Z * z))
  {
    hide *;
    ScaledMeaning(p, X, Y, Z);
    OperandMeaning(q, plus, minus, z, t2d);
    ScaledSum(Y, X, p.y, p.x, Z);
    ScaledProduct(Y - X, minus, p.y - p.x, q.y - q.x, Z, z);
    CongTrans(b, (Y - X) * minus, ((p.y - p.x) * (q.y - q.x)) * (Z * z));
  }

  lemma ChainT(p: Point, q: Point, X: int, Y: int, Z: int, T: int, plus: int, minus: int, z: int, t2d: int, c: int)
    requires ScaledProductOf(p, T, Z) && Operand(q, plus, minus, z, t2d) && Cong(c, t2d * T)
    ensures Cong(c, (2 * Cross(p, q)) * (Z * z))
  {
    hide *;
    ScaledProductOfMeaning(p, T, Z);
    OperandMeaning(q, plus, minus, z, t2d);
    TwiceCross(p, q);
    ChainTProduct(p.x * p.y, 2 * (D * (q.x * q.y)), Z, T, z, t2d, c, Cross(p, q));
  }

  lemma ChainTProduct(xy: int, t: int, Z: int, T: int, z: int, t2d: int, c: int, k: int)
    requires Cong(T, xy * Z) && Cong(t2d, t * z) && Cong(c, t2d * T) && t * xy == 2 * k
    ensures Cong(c, (2 * k) * (Z * z))
  {
    CongMul(t2d, t * z, T, xy * Z);
    RegroupSwapped(t, z, xy, Z);
    CongSelf(t * xy, 2 * k);
    CongTimes(t * xy, 2 * k, Z * z);
    CongTrans(c, t2d * T, (t * xy) * (Z * z));
    CongTrans(c, (t * xy) * (Z * z), (2 * k) * (Z * z));
  }

  lemma RegroupSwapped(x: int, z1: int, y: int, z2: int)
    ensures (x * z1) * (y * z2) == (x * y) * (z2 * z1)
  {
  }

  lemma ChainZ(p: Point, q: Point, X: int, Y: int, Z: int, plus: int, minus: int, z: int, t2d: int)
    requires Fermat() && Scaled(p, X, Y, Z) && Operand(q, plus, minus, z, t2d)
    ensures !Cong(Z * z, 0)
  {
    hide *;
    ScaledMeaning(p, X, Y, Z);
    OperandMeaning(q, plus, minus, z, t2d);
    NoZeroDivisors(Z, z);
  }

  lemma TwiceCross(p: Point, q: Point)
    ensures (2 * (D * (q.x * q.y))) * (p.x * p.y) == 2 * Cross(p, q)
  {
    CrossMeaning(p, q);
    var u, v := p.x * p.y, q.x * q.y;
    assert (D * v) * u == D * (u * v);
  }

  // Swapping y + x with y - x and negating 2 d x y negates the point.
  lemma OperandNegative(q: Point, plus: int, minus: int, z: int, t2d: int)
    requires Operand(q, plus, minus, z, t2d)
    ensures Operand(Negative(q), minus, plus, z, -t2d)
  {
    hide *;
    OperandMeaning(q, plus, minus, z, t2d);
    OperandMeaning(Negative(q), minus, plus, z, -t2d);
    NegativeIs(q);
    NegatedSums(q.x, q.y, z, Negative(q).x, plus, minus);
    NegatedTerm(D, q.x, q.y, z, Negative(q).x, t2d);
  }

  lemma NegatedSums(x: int, y: int, z: int, n: int, plus: int, minus: int)
    requires Cong(n, -x) && Cong(plus, (y + x) * z) && Cong(minus, (y - x) * z)
    ensures Cong(minus, (y + n) * z) && Cong(plus, (y - n) * z)
  {
    hide *;
    CongSelf(y, y);
    CongAdd(y, y, n, -x);
    CongTimes(y + n, y - x, z);
    CongTimes(y - n, y + x, z);
    CongSym((y + n) * z, (y - x) * z);
    CongSym((y - n) * z, (y + x) * z);
    CongTrans(minus, (y - x) * z, (y + n) * z);
    CongTrans(plus, (y + x) * z, (y - n) * z);
  }

  lemma NegatedTerm(d: int, x: int, y: int, z: int, n: int, t2d: int)
    requires Cong(n, -x) && Cong(t2d, (2 * (d * (x * y))) * z)
    ensures Cong(-t2d, (2 * (d * (n * y))) * z)
  {
    hide *;
    var m := 2 * (d * (x * y));
    CongTimes(n, -x, y);
    CongTimes(n * y, -x * y, 2 * d);
    CongTimes((2 * d) * (n * y), (2 * d) * (-x * y), z);
    NegativeTerm(d, x, y, z, n);
    CongSelf(0, 0);
    CongAdd(0, 0, t2d, m * z);
    CongSym((2 * (d * (n * y))) * z, -(m * z));
    CongTrans(-t2d, -(m * z), (2 * (d * (n * y))) * z);
  }

  lemma NegativeTerm(d: int, x: int, y: int, z: int, n: int)
    ensures ((2 * d) * (-x * y)) * z == -((2 * (d * (x * y))) * z)
    ensures (2 * d) * (n * y) == 2 * (d * (n * y))
  {
    assert -x * y == -(x * y);
    var w := x * y;
    assert (2 * d) * -w == -(2 * (d * w));
  }

  // ----- addition and subtraction -----

  // r = p + q
  method AddCached(p: P3, q: Cached, ghost a: Point, ghost b: Point) returns (r: P1P1)
    requires Fermat() && OnCurve(a) && OnCurve(b) && IsP3(p, a) && IsCached(q, b)
    ensures IsP1P1(r, Sum(a, b))
  {
    hide Cong, Value, Within, Fermat, OnCurve, Sum, Scaled, Operand, Completed;
    var rX := Add(p.Y, p.X, TIGHT, TIGHT);
    var rY := Sub(p.Y, p.X, TIGHT, TIGHT);
    var rZ := MulWithin(rX, q.YplusX, DOUBLE, DOUBLE);
    rY := MulWithin(rY, q.YminusX, DOUBLE, DOUBLE);
    var rT := MulWithin(q.T2d, p.T, TIGHT, TIGHT);
    rX := MulWithin(p.Z, q.Z, TIGHT, TIGHT);
    var t0 := Add(rX, rX, TIGHT, TIGHT);
    TwiceCong(Value(rX), Value(p.Z) * Value(q.Z));
    AdditionChain(a, b, Value(p.X), Value(p.Y), Value(p.Z), Value(p.T),
                  Value(q.YplusX), Value(q.YminusX), Value(q.Z), Value(q.T2d),
                  Value(rZ), Value(rY), Value(rT), Value(t0));
    r := Unify(t0, rZ, rY, rT);
  }

  // The last four lines of ge_add and ge_madd.
  method Unify(t0: Fe, a: Fe, b: Fe, c: Fe) returns (r: P1P1)
    requires Within(t0, DOUBLE) && Within(a, TIGHT) && Within(b, TIGHT) && Within(c, TIGHT)
    ensures Within(r.X, TRIPLE) && Within(r.Y, TRIPLE) && Within(r.Z, TRIPLE) && Within(r.T, TRIPLE)
    ensures Value(r.X) == Value(a) - Value(b) && Value(r.Y) == Value(a) + Value(b)
    ensures Value(r.Z) == Value(t0) + Value(c) && Value(r.T) == Value(t0) - Value(c)
  {
    hide Value, Within;
    var rX := Sub(a, b, TIGHT, TIGHT);
    var rY := Add(a, b, TIGHT, TIGHT);
    var rZ := Add(t0, c, DOUBLE, TIGHT);
    var rT := Sub(t0, c, DOUBLE, TIGHT);
    WithinWeaken(rX, DOUBLE, TRIPLE);
    WithinWeaken(rY, DOUBLE, TRIPLE);
    r := P1P1(rX, rY, rZ, rT);
  }

  // The last four lines of ge_sub and ge_msub: c has the other sign.
  method UnifyNegated(t0: Fe, a: Fe, b: Fe, c: Fe) returns (r: P1P1)
    requires Within(t0, DOUBLE) && Within(a, TIGHT) && Within(b, TIGHT) && Within(c, TIGHT)
    ensures Within(r.X, TRIPLE) && Within(r.Y, TRIPLE) && Within(r.Z, TRIPLE) && Within(r.T, TRIPLE)
    ensures Value(r.X) == Value(a) - Value(b) && Value(r.Y) == Value(a) + Value(b)
    ensures Value(r.Z) == Value(t0) - Value(c) && Value(r.T) == Value(t0) + Value(c)
  {
    hide Value, Within;
    var rX := Sub(a, b, TIGHT, TIGHT);
    var rY := Add(a, b, TIGHT, TIGHT);
    var rZ := Sub(t0, c, DOUBLE, TIGHT);
    var rT := Add(t0, c, DOUBLE, TIGHT);
    WithinWeaken(rX, DOUBLE, TRIPLE);
    WithinWeaken(rY, DOUBLE, TRIPLE);
    r := P1P1(rX, rY, rZ, rT);
  }

  method MulWithin(f: Fe, g: Fe, ghost m: Bound, ghost n: Bound) returns (h: Fe)
    requires Within(f, m) && Within(g, n) && m.AtMost(LOOSE) && n.AtMost(LOOSE)
    ensures Within(h, TIGHT)
    ensures Cong(Value(h), Value(f) * Value(g))
  {
    hide Cong, Value, Within;
    WithinWeaken(f, m, LOOSE);
    WithinWeaken(g, n, LOOSE);
    h := Mul(f, g);
  }

  lemma TwiceCong(a: int, b: int)
    requires Cong(a, b)
    ensures Cong(a + a, 2 * b)
  {
    hide *;
    CongAdd(a, b, a, b);
  }

  // r = p - q
  method SubCached(p: P3, q: Cached, ghost a: Point, ghost b: Point) returns (r: P1P1)
    requires Fermat() && OnCurve(a) && OnCurve(b) && IsP3(p, a) && IsCached(q, b)
    ensures IsP1P1(r, Sum(a, Negative(b)))
  {
    hide Cong, Value, Within, Fermat, OnCurve, Sum, Scaled, Operand, Completed, Negative;
    var rX := Add(p.Y, p.X, TIGHT, TIGHT);
    var rY := Sub(p.Y, p.X, TIGHT, TIGHT);
    var rZ := MulWithin(rX, q.YminusX, DOUBLE, DOUBLE);
    rY := MulWithin(rY, q.YplusX, DOUBLE, DOUBLE);
    var rT := MulWithin(q.T2d, p.T, TIGHT, TIGHT);
    rX := MulWithin(p.Z, q.Z, TIGHT, TIGHT);
    var t0 := Add(rX, rX, TIGHT, TIGHT);
    TwiceCong(Value(rX), Value(p.Z) * Value(q.Z));
    SubtractionChain(a, b, Value(p.X), Value(p.Y), Value(p.Z), Value(p.T),
                     Value(q.YplusX), Value(q.YminusX), Value(q.Z), Value(q.T2d),
                     Value(rZ), Value(rY), Value(rT), Value(t0));
    r := UnifyNegated(t0, rZ, rY, rT);
  }

  lemma SubtractionChain(p: Point, q: Point, X: int, Y: int, Z: int, T: int, plus: int, minus: int, z: int, t2d: int,
                         a: int, b: int, c: int, d: int)
    requires Fermat() && OnCurve(p) && OnCurve(q)
    requires Scaled(p, X, Y, Z) && ScaledProductOf(p, T, Z) && Operand(q, plus, minus, z, t2d)
    requires Cong(a, (Y + X) * minus) && Cong(b, (Y - X) * plus) && Cong(c, t2d * T) && Cong(d, 2 * (Z * z))
    ensures Completed(Sum(p, Negative(q)), a - b, a + b, d - c, d + c)
  {
    hide *;
    OperandNegative(q, plus, minus, z, t2d);
    NegativeOnCurve(q);
    CongSelf(0, 0);
    CongAdd(0, 0, c, t2d * T);
    assert -(t2d * T) == (-t2d) * T;
    AdditionChain(p, Negative(q), X, Y, Z, T, minus, plus, z, -t2d, a, b, -c, d);
  }

  // r = p + q for a table entry
  method AddPrecomp(p: P3, q: Precomp, ghost a: Point, ghost b: Point) returns (r: P1P1)
    requires Fermat() && OnCurve(a) && OnCurve(b) && IsP3(p, a) && IsPrecomp(q, b)
    ensures IsP1P1(r, Sum(a, b))
  {
    hide Cong, Value, Within, Fermat, OnCurve, Sum, Scaled, Operand, Completed;
    var rX := Add(p.Y, p.X, TIGHT, TIGHT);
    var rY := Sub(p.Y, p.X, TIGHT, TIGHT);
    var rZ := MulWithin(rX, q.yplusx, DOUBLE, TIGHT);
    rY := MulWithin(rY, q.yminusx, DOUBLE, TIGHT);
    var rT := MulWithin(q.xy2d, p.T, TIGHT, TIGHT);
    var t0 := Add(p.Z, p.Z, TIGHT, TIGHT);
    CongSelf(Value(t0), 2 * (Value(p.Z) * 1));
    AdditionChain(a, b, Value(p.X), Value(p.Y), Value(p.Z), Value(p.T),
                  Value(q.yplusx), Value(q.yminusx), 1, Value(q.xy2d),
                  Value(rZ), Value(rY), Value(rT), Value(t0));
    r := Unify(t0, rZ, rY, rT);
  }

  // r = p - q for a table entry
  method SubPrecomp(p: P3, q: Precomp, ghost a: Point, ghost b: Point) returns (r: P1P1)
    requires Fermat() && OnCurve(a) && OnCurve(b) && IsP3(p, a) && IsPrecomp(q, b)
    ensures IsP1P1(r, Sum(a, Negative(b)))
  {
    hide Cong, Value, Within, Fermat, OnCurve, Sum, Scaled, Operand, Completed, Negative;
    var rX := Add(p.Y, p.X, TIGHT, TIGHT);
    var rY := Sub(p.Y, p.X, TIGHT, TIGHT);
    var rZ := MulWithin(rX, q.yminusx, DOUBLE, TIGHT);
    rY := MulWithin(rY, q.yplusx, DOUBLE, TIGHT);
    var rT := MulWithin(q.xy2d, p.T, TIGHT, TIGHT);
    var t0 := Add(p.Z, p.Z, TIGHT, TIGHT);
    CongSelf(Value(t0), 2 * (Value(p.Z) * 1));
    SubtractionChain(a, b, Value(p.X), Value(p.Y), Value(p.Z), Value(p.T),
                     Value(q.yplusx), Value(q.yminusx), 1, Value(q.xy2d),
                     Value(rZ), Value(rY), Value(rT), Value(t0));
    r := UnifyNegated(t0, rZ, rY, rT);
  }

  // ----- doubling -----

  // What ge_p2_dbl squares: x^2 w, y^2 w, (x + y)^2 w and 2 w.
  ghost predicate FourSquares(p: Point, w: int, x2: int, y2: int, s2: int, d: int) {
    FourSquaresSteps(p, w, x2, y2, s2, d, 4)
  }

  ghost predicate FourSquaresSteps(p: Point, w: int, x2: int, y2: int, s2: int, d: int, n: nat)
    decreases n, p, w, x2, y2, s2, d
  {
    if n == 0 then
      && !Cong(w, 0)
      && Cong(x2, (p.x * p.x) * w)
      && Cong(y2, (p.y * p.y) * w)
      && Cong(s2, ((p.x + p.y) * (p.x + p.y)) * w)
      && Cong(d, 2 * w)
    else FourSquaresSteps(p, w, x2, y2, s2, d, n - 1)
  }

  lemma FourSquaresMeaning(p: Point, w: int, x2: int, y2: int, s2: int, d: int)
    ensures FourSquares(p, w, x2, y2, s2, d) <==>
              && !Cong(w, 0)
              && Cong(x2, (p.x * p.x) * w)
              && Cong(y2, (p.y * p.y) * w)
              && Cong(s2, ((p.x + p.y) * (p.x + p.y)) * w)
              && Cong(d, 2 * w)
  {
    hide Cong;
    assert FourSquaresSteps(p, w, x2, y2, s2, d, 4) == FourSquaresSteps(p, w, x2, y2, s2, d, 3);
    assert FourSquaresSteps(p, w, x2, y2, s2, d, 3) == FourSquaresSteps(p, w, x2, y2, s2, d, 2);
    assert FourSquaresSteps(p, w, x2, y2, s2, d, 2) == FourSquaresSteps(p, w, x2, y2, s2, d, 1);
    assert FourSquaresSteps(p, w, x2, y2, s2, d, 1) == FourSquaresSteps(p, w, x2, y2, s2, d, 0);
  }

  // 2 x y w, (y^2 + x^2) w, (y^2 - x^2) w and (2 - (y^2 - x^2)) w are the double of (x, y) on the curve.
  lemma DoublingFormula(p: Point, w: int, x2: int, y2: int, s2: int, d: int)
    requires Fermat() && OnCurve(p) && FourSquares(p, w, x2, y2, s2, d)
    ensures Completed(Sum(p, p), s2 - (y2 + x2), y2 + x2, y2 - x2, d - (y2 - x2))
  {
    hide *;
    FourSquaresMeaning(p, w, x2, y2, s2, d);
    var k, s := Cross(p, p), Sum(p, p);
    Complete(p, p);
    SumFractions(p, p);
    CurveCross(p);
    DoublingSums(p.x, p.y, k, w, x2, y2, s2, d);
    CompleteOne(s.x, p.x * p.y + p.x * p.y, 1 + k, w, s2 - (y2 + x2), y2 - x2);
    CompleteOne(s.y, p.y * p.y + p.x * p.x, 1 - k, w, y2 + x2, d - (y2 - x2));
    CompletedMeaning(s, s2 - (y2 + x2), y2 + x2, y2 - x2, d - (y2 - x2));
  }

  lemma CurveCross(p: Point)
    requires OnCurve(p)
    ensures Cong(p.y * p.y - p.x * p.x, 1 + Cross(p, p))
  {
    hide *;
    OnCurveEquation(p);
    CurveMeaning(p.x, p.y);
    CrossMeaning(p, p);
  }

  lemma DoublingSums(x: int, y: int, k: int, w: int, x2: int, y2: int, s2: int, d: int)
    requires Cong(y * y - x * x, 1 + k)
    requires Cong(x2, (x * x) * w) && Cong(y2, (y * y) * w)
    requires Cong(s2, ((x + y) * (x + y)) * w) && Cong(d, 2 * w)
    ensures Cong(s2 - (y2 + x2), (x * y + x * y) * w) && Cong(y2 - x2, (1 + k) * w)
    ensures Cong(y2 + x2, (y * y + x * x) * w) && Cong(d - (y2 - x2), (1 - k) * w)
  {
    hide *;
    var u, v := y * y + x * x, y * y - x * x;
    ScaledSum(y2, x2, y * y, x * x, w);
    ScaledSum(s2, y2 + x2, (x + y) * (x + y), u, w);
    ScaledSum(d, y2 - x2, 2, v, w);
    BinomialSquare(x, y);
    CongTimes(v, 1 + k, w);
    CongTrans(y2 - x2, v * w, (1 + k) * w);
    CongSelf(2, 2);
    CongAdd(2, 2, v, 1 + k);
    CongTimes(2 - v, 2 - (1 + k), w);
    CongTrans(d - (y2 - x2), (2 - v) * w, (1 - k) * w);
  }

  lemma DoublingChain(p: Point, X: int, Y: int, Z: int, x2: int, y2: int, s2: int, d: int)
    requires Fermat() && OnCurve(p) && Scaled(p, X, Y, Z)
    requires Cong(x2, X * X) && Cong(y2, Y * Y) && Cong(s2, (X + Y) * (X + Y)) && Cong(d, 2 * (Z * Z))
    ensures Completed(Sum(p, p), s2 - (y2 + x2), y2 + x2, y2 - x2, d - (y2 - x2))
  {
    hide *;
    ScaledMeaning(p, X, Y, Z);
    ScaledProduct(X, X, p.x, p.x, Z, Z);
    ScaledProduct(Y, Y, p.y, p.y, Z, Z);
    ScaledSum(X, Y, p.x, p.y, Z);
    ScaledProduct(X + Y, X + Y, p.x + p.y, p.x + p.y, Z, Z);
    var w := Z * Z;
    CongTrans(x2, X * X, (p.x * p.x) * w);
    CongTrans(y2, Y * Y, (p.y * p.y) * w);
    CongTrans(s2, (X + Y) * (X + Y), ((p.x + p.y) * (p.x + p.y)) * w);
    NoZeroDivisors(Z, Z);
    FourSquaresMeaning(p, w, x2, y2, s2, d);
    DoublingFormula(p, w, x2, y2, s2, d);
  }

  // r = 2 p
  method DoubleP2(p: P2, ghost a: Point) returns (r: P1P1)
    requires Fermat() && OnCurve(a) && IsP2(p, a)
    ensures IsP1P1(r, Sum(a, a))
  {
    hide Cong, Value, Within, Fermat, OnCurve, Sum, Scaled, Completed;
    WithinWeaken(p.X, TIGHT, LOOSE);
    WithinWeaken(p.Y, TIGHT, LOOSE);
    WithinWeaken(p.Z, TIGHT, LOOSE);
    var rX := Square(p.X);
    var rZ := Square(p.Y);
    var rT := SquareTwice(p.Z);
    var rY := Add(p.X, p.Y, TIGHT, TIGHT);
    WithinWeaken(rY, DOUBLE, LOOSE);
    var t0 := Square(rY);
    DoublingChain(a, Value(p.X), Value(p.Y), Value(p.Z), Value(rX), Value(rZ), Value(t0), Value(rT));
    rY := Add(rZ, rX, TIGHT, TIGHT);
    rZ := Sub(rZ, rX, TIGHT, TIGHT);
    rX := Sub(t0, rY, TIGHT, DOUBLE);
    rT := Sub(rT, rZ, TIGHT, DOUBLE);
    WithinWeaken(rY, DOUBLE, TRIPLE);
    WithinWeaken(rZ, DOUBLE, TRIPLE);
    r := P1P1(rX, rY, rZ, rT);
  }

  // r = 2 p
  method DoubleP3(p: P3, ghost a: Point) returns (r: P1P1)
    requires Fermat() && OnCurve(a) && IsP3(p, a)
    ensures IsP1P1(r, Sum(a, a))
  {
    var q := P3ToP2(p, a);
    r := DoubleP2(q, a);
  }

  // ----- conversions -----

  method P3ToP2(p: P3, ghost a: Point) returns (r: P2)
    requires IsP3(p, a)
    ensures IsP2(r, a)
  {
    r := P2(p.X, p.Y, p.Z);
  }

  lemma Complete2(a: Point, X: int, Y: int, Z: int, T: int, x: int, y: int, z: int)
    requires Fermat() && Completed(a, X, Y, Z, T)
    requires Cong(x, X * T) && Cong(y, Y * Z) && Cong(z, Z * T)
    ensures Scaled(a, x, y, z)
  {
    hide *;
    CompletedMeaning(a, X, Y, Z, T);
    ScaledMeaning(a, x, y, z);
    NoZeroDivisors(Z, T);
    CongSym(z, Z * T);
    NonzeroCong(Z * T, z);
    CongTimes(X, a.x * Z, T);
    CongTimes(Y, a.y * T, Z);
    assert (a.x * Z) * T == a.x * (Z * T) && (a.y * T) * Z == a.y * (Z * T);
    CongTimes(Z * T, z, a.x);
    CongTimes(Z * T, z, a.y);
    CongTrans(x, X * T, a.x * (Z * T));
    CongTrans(x, a.x * (Z * T), a.x * z);
    CongTrans(y, Y * Z, a.y * (Z * T));
    CongTrans(y, a.y * (Z * T), a.y * z);
  }

  lemma CompleteT(a: Point, X: int, Y: int, Z: int, T: int, z: int, t: int)
    requires Completed(a, X, Y, Z, T)
    requires Cong(z, Z * T) && Cong(t, X * Y)
    ensures ScaledProductOf(a, t, z)
  {
    hide *;
    CompletedMeaning(a, X, Y, Z, T);
    ScaledProductOfMeaning(a, t, z);
    ScaledProduct(X, Y, a.x, a.y, Z, T);
    CongTrans(t, X * Y, (a.x * a.y) * (Z * T));
    CongSym(z, Z * T);
    CongTimes(Z * T, z, a.x * a.y);
    CongTrans(t, (a.x * a.y) * (Z * T), (a.x * a.y) * z);
  }

  method P1P1ToP2(p: P1P1, ghost a: Point) returns (r: P2)
    requires Fermat() && IsP1P1(p, a)
    ensures IsP2(r, a)
  {
    hide Cong, Value, Within, Fermat, Scaled, Completed;
    var rX := MulWithin(p.X, p.T, TRIPLE, TRIPLE);
    var rY := MulWithin(p.Y, p.Z, TRIPLE, TRIPLE);
    var rZ := MulWithin(p.Z, p.T, TRIPLE, TRIPLE);
    Complete2(a, Value(p.X), Value(p.Y), Value(p.Z), Value(p.T), Value(rX), Value(rY), Value(rZ));
    r := P2(rX, rY, rZ);
  }

  method P1P1ToP3(p: P1P1, ghost a: Point) returns (r: P3)
    requires Fermat() && IsP1P1(p, a)
    ensures IsP3(r, a)
  {
    hide Cong, Value, Within, Fermat, Scaled, Completed;
    var rX := MulWithin(p.X, p.T, TRIPLE, TRIPLE);
    var rY := MulWithin(p.Y, p.Z, TRIPLE, TRIPLE);
    var rZ := MulWithin(p.Z, p.T, TRIPLE, TRIPLE);
    var rT := MulWithin(p.X, p.Y, TRIPLE, TRIPLE);
    Complete2(a, Value(p.X), Value(p.Y), Value(p.Z), Value(p.T), Value(rX), Value(rY), Value(rZ));
    CompleteT(a, Value(p.X), Value(p.Y), Value(p.Z), Value(p.T), Value(rZ), Value(rT));
    r := P3(rX, rY, rZ, rT);
  }

  // X Y = Z T in the extended coordinates.
  lemma ExtendedInvariant(h: P3, a: Point)
    requires IsP3(h, a)
    ensures Cong(Value(h.X) * Value(h.Y), Value(h.Z) * Value(h.T))
  {
    hide Cong, Value, Within;
    var X, Y, Z, T := Value(h.X), Value(h.Y), Value(h.Z), Value(h.T);
    ScaledMeaning(a, X, Y, Z);
    ScaledProductOfMeaning(a, T, Z);
    ScaledProduct(X, Y, a.x, a.y, Z, Z);
    CongTimes(T, (a.x * a.y) * Z, Z);
    assert ((a.x * a.y) * Z) * Z == (a.x * a.y) * (Z * Z);
    CongSym(Z * T, (a.x * a.y) * (Z * Z));
    CongTrans(X * Y, (a.x * a.y) * (Z * Z), Z * T);
  }

  const D2LIMBS := Fe(-21827239, -5839606, -30745221, 13898782, 229458, 15978800, -12551817, -6495438, 29715968,
      9444199)

  lemma TwiceD()
    ensures Within(D2LIMBS, TIGHT) && Cong(Value(D2LIMBS), 2 * D)
  {
    ValueMeaning(D2LIMBS);
    CongWitness(Value(D2LIMBS), 2 * D, -1);
  }

  method P3ToCached(p: P3, ghost a: Point) returns (r: Cached)
    requires IsP3(p, a)
    ensures IsCached(r, a)
  {
    hide Cong, Value, Within;
    TwiceD();
    var plus := Add(p.Y, p.X, TIGHT, TIGHT);
    var minus := Sub(p.Y, p.X, TIGHT, TIGHT);
    var t2d := MulWithin(p.T, D2LIMBS, TIGHT, TIGHT);
    ScaledMeaning(a, Value(p.X), Value(p.Y), Value(p.Z));
    ScaledProductOfMeaning(a, Value(p.T), Value(p.Z));
    OperandMeaning(a, Value(plus), Value(minus), Value(p.Z), Value(t2d));
    ScaledSum(Value(p.Y), Value(p.X), a.y, a.x, Value(p.Z));
    CachedT(Value(p.T), Value(D2LIMBS), Value(t2d), a.x * a.y, Value(p.Z));
    r := Cached(plus, minus, p.Z, t2d);
  }

  lemma CachedT(T: int, d2: int, t2d: int, xy: int, z: int)
    requires Cong(T, xy * z) && Cong(d2, 2 * D) && Cong(t2d, T * d2)
    ensures Cong(t2d, (2 * (D * xy)) * z)
  {
    hide *;
    CongMul(T, xy * z, d2, 2 * D);
    assert (xy * z) * (2 * D) == (2 * (D * xy)) * z;
    CongTrans(t2d, T * d2, (2 * (D * xy)) * z);
  }

  // The neutral element
  method ZeroP2() returns (h: P2)
    ensures IsP2(h, ORIGIN)
  {
    hide Cong, Value, Within;
    var x := Zero();
    var y := One();
    NeutralCoordinates();
    h := P2(x, y, y);
  }

  lemma NeutralCoordinates()
    ensures Scaled(ORIGIN, 0, 1, 1) && ScaledProductOf(ORIGIN, 0, 1)
  {
    hide Cong;
    ZeroNotOne();
    ScaledMeaning(ORIGIN, 0, 1, 1);
    ScaledProductOfMeaning(ORIGIN, 0, 1);
    CongSelf(0, 0 * 1);
    CongSelf(1, 1 * 1);
    CongSelf(0, (0 * 1) * 1);
  }

  method ZeroP3() returns (h: P3)
    ensures IsP3(h, ORIGIN)
  {
    hide Cong, Value, Within;
    var x := Zero();
    var y := One();
    NeutralCoordinates();
    h := P3(x, y, y, x);
  }
}
