// The twisted Edwards curve of Ed25519, -x^2 + y^2 = 1 + d x^2 y^2 modulo p, with its affine addition law
// (section 5.1.4 of RFC 8032). Nothing here comes from the C code: it is the reference the formulas of ge.c are
// proved against. Fermat's little theorem for p and associativity are hypotheses; that d is not a square, and that the
// law is complete and closed, commutative, and has a neutral element and inverses, is proved from the first.
module EdwardsCurve {
  import opened Congruence

  // d = -121665 / 121666, and a square root of -1
  const D: int := 0x52036cee2b6ffe738cc740797779e89800700a4d4141d8ab75eb4dca135978a3
  const ROOT: int := 0x2b8324804fc1df0b2b4d00993dfbd7a72f431806ad2fe478c4ee1b274a0ea0b0

  lemma Constants()
    ensures Cong(121666 * D, -121665)
    ensures Cong(ROOT * ROOT, -1)
  {
    CongWitness(121666 * D, -121665, 77955);
    CongWitness(ROOT * ROOT, -1, 6690407189080634018507799843845558368979872843924222843531373839242004886245);
  }

  // ----- the hypotheses -----

  ghost predicate Fermat() {
    forall z: int :: FermatHolds(z)
  }

  ghost predicate FermatHolds(z: int) {
    !Cong(z, 0) ==> Cong(Pow(z, P - 1), 1)
  }

  ghost predicate Associative() {
    forall p: Point, q: Point, r: Point :: AssociativeAt(p, q, r)
  }

  ghost predicate AssociativeAt(p: Point, q: Point, r: Point) {
    OnCurve(p) && OnCurve(q) && OnCurve(r) ==> Sum(Sum(p, q), r) == Sum(p, Sum(q, r))
  }

  ghost predicate CurveFacts() {
    Fermat() && Associative()
  }

  lemma FactsOfCurve()
    requires CurveFacts()
    ensures Fermat()
  {
    hide Fermat, Associative;
  }

  // ----- arithmetic in the field -----

  lemma {:induction false} PowOfZero(z: int, e: nat)
    requires Cong(z, 0) && e > 0
    ensures Cong(Pow(z, e), 0)
  {
    hide Cong;
    CongTimes(z, 0, Pow(z, e - 1));
  }

  lemma ZeroNotOne()
    ensures !Cong(0, 1) && !Cong(1, 0) && !Cong(-1, 0) && !Cong(2, 0)
  {
  }

  lemma NonzeroCong(a: int, b: int)
    requires Cong(a, b) && !Cong(a, 0)
    ensures !Cong(b, 0)
  {
    hide *;
    if Cong(b, 0) {
      CongTrans(a, b, 0);
    }
  }

  lemma {:induction false} FermatAt(z: int)
    requires Fermat() && !Cong(z, 0)
    ensures Cong(Pow(z, P - 1), 1)
  {
    assert FermatHolds(z);
  }

  lemma NoZeroDivisors(a: int, b: int)
    requires Fermat() && !Cong(a, 0) && !Cong(b, 0)
    ensures !Cong(a * b, 0)
  {
    hide Pow, Cong;
    if Cong(a * b, 0) {
      var e := P - 1;
      FermatAt(a);
      FermatAt(b);
      CongMul(Pow(a, e), 1, Pow(b, e), 1);
      PowProduct(a, b, e);
      PowOfZero(a * b, e);
      CongSym(Pow(a * b, e), 0);
      CongTrans(0, Pow(a * b, e), 1);
      ZeroNotOne();
    }
  }

  lemma ZeroFactor(a: int, b: int)
    requires Fermat() && Cong(a * b, 0)
    ensures Cong(a, 0) || Cong(b, 0)
  {
    hide *;
    if !Cong(a, 0) && !Cong(b, 0) {
      NoZeroDivisors(a, b);
    }
  }

  lemma Cancel(a: int, b: int, c: int)
    requires Fermat() && !Cong(c, 0) && Cong(a * c, b * c)
    ensures Cong(a, b)
  {
    hide *;
    CongDifference(a * c, b * c);
    Factor(a, b, c);
    if !Cong(a - b, 0) {
      NoZeroDivisors(a - b, c);
    }
    CongDifference(a, b);
  }

  lemma CongDifference(a: int, b: int)
    ensures Cong(a, b) <==> Cong(a - b, 0)
  {
    hide *;
    if Cong(a, b) {
      CongSelf(b, b);
      CongAdd(a, b, b, b);
    } else if Cong(a - b, 0) {
      CongSelf(b, b);
      CongAdd(a - b, 0, b, b);
    }
  }

  lemma Factor(a: int, b: int, c: int)
    ensures a * c - b * c == (a - b) * c
  {
  }

  // The inverse of a nonzero residue.
  ghost function Inv(a: int): int {
    Pow(a, P - 2)
  }

  lemma InvCancels(a: int)
    requires Fermat() && !Cong(a, 0)
    ensures Cong(a * Inv(a), 1)
  {
    hide Cong;
    var e := P - 1;
    FermatAt(a);
    assert Pow(a, e) == a * Pow(a, e - 1);
  }

  // (n / a) a = n
  lemma Quotient(n: int, a: int)
    requires Fermat() && !Cong(a, 0)
    ensures Cong((n * Inv(a)) * a, n)
  {
    hide *;
    InvCancels(a);
    CongTimes(a * Inv(a), 1, n);
    Reorder(n, a, Inv(a));
  }

  lemma Regroup(a: int, b: int, c: int, e: int)
    ensures (a * b) * (c * e) == (a * c) * (b * e)
  {
  }

  lemma Reorder(n: int, a: int, c: int)
    ensures (n * c) * a == n * (a * c)
  {
  }

  lemma {:induction false} PowFirst(z: int)
    ensures Pow(z, 1) == z
  {
    assert Pow(z, 1) == z * Pow(z, 0);
  }

  // ----- the curve -----

  datatype Point = Point(x: int, y: int)

  // The definitions below are stepped, as the head of Congruence explains.
  ghost predicate OnCurve(p: Point) {
    OnCurveSteps(p, 4)
  }

  ghost predicate OnCurveSteps(p: Point, n: nat)
    decreases n, p
  {
    if n == 0 then 0 <= p.x < P && 0 <= p.y < P && CurveEquation(p.x, p.y) else OnCurveSteps(p, n - 1)
  }

  lemma OnCurveMeaning(p: Point)
    ensures OnCurve(p) <==> 0 <= p.x < P && 0 <= p.y < P && CurveEquation(p.x, p.y)
  {
    hide CurveEquation;
    assert OnCurveSteps(p, 4) == OnCurveSteps(p, 3);
    assert OnCurveSteps(p, 3) == OnCurveSteps(p, 2);
    assert OnCurveSteps(p, 2) == OnCurveSteps(p, 1);
    assert OnCurveSteps(p, 1) == OnCurveSteps(p, 0);
  }

  lemma OnCurveEquation(p: Point)
    requires OnCurve(p)
    ensures CurveEquation(p.x, p.y)
  {
    hide *;
    OnCurveMeaning(p);
  }

  ghost predicate CurveEquation(x: int, y: int) {
    CurveSteps(x, y, 4)
  }

  ghost predicate CurveSteps(x: int, y: int, n: nat)
    decreases n, x, y
  {
    if n == 0 then Cong(y * y - x * x, 1 + D * ((x * y) * (x * y))) else CurveSteps(x, y, n - 1)
  }

  lemma CurveMeaning(x: int, y: int)
    ensures CurveEquation(x, y) <==> Cong(y * y - x * x, 1 + D * ((x * y) * (x * y)))
  {
    assert CurveSteps(x, y, 4) == CurveSteps(x, y, 3);
    assert CurveSteps(x, y, 3) == CurveSteps(x, y, 2);
    assert CurveSteps(x, y, 2) == CurveSteps(x, y, 1);
    assert CurveSteps(x, y, 1) == CurveSteps(x, y, 0);
  }

  const ORIGIN := Point(0, 1)

  ghost function Negative(p: Point): Point {
    Point(Residue(-p.x), p.y)
  }

  // d x1 x2 y1 y2
  ghost function Cross(p: Point, q: Point): int {
    CrossSteps(p, q, 4)
  }

  ghost function CrossSteps(p: Point, q: Point, n: nat): int
    decreases n, p, q
  {
    if n == 0 then D * ((p.x * p.y) * (q.x * q.y)) else CrossSteps(p, q, n - 1)
  }

  lemma CrossMeaning(p: Point, q: Point)
    ensures Cross(p, q) == D * ((p.x * p.y) * (q.x * q.y))
  {
    assert CrossSteps(p, q, 4) == CrossSteps(p, q, 3);
    assert CrossSteps(p, q, 3) == CrossSteps(p, q, 2);
    assert CrossSteps(p, q, 2) == CrossSteps(p, q, 1);
    assert CrossSteps(p, q, 1) == CrossSteps(p, q, 0);
  }

  // The affine sum.
  ghost function Sum(p: Point, q: Point): Point {
    SumSteps(p, q, 4)
  }

  ghost function SumSteps(p: Point, q: Point, n: nat): Point
    decreases n, p, q
  {
    if n == 0 then
      Point(Residue((p.x * q.y + q.x * p.y) * Inv(1 + Cross(p, q))),
            Residue((p.y * q.y + p.x * q.x) * Inv(1 - Cross(p, q))))
    else SumSteps(p, q, n - 1)
  }

  lemma SumMeaning(p: Point, q: Point)
    ensures Sum(p, q) == Point(Residue((p.x * q.y + q.x * p.y) * Inv(1 + Cross(p, q))),
                               Residue((p.y * q.y + p.x * q.x) * Inv(1 - Cross(p, q))))
  {
    hide Residue, Inv, Cross;
    assert SumSteps(p, q, 4) == SumSteps(p, q, 3);
    assert SumSteps(p, q, 3) == SumSteps(p, q, 2);
    assert SumSteps(p, q, 2) == SumSteps(p, q, 1);
    assert SumSteps(p, q, 1) == SumSteps(p, q, 0);
  }

  lemma SumReduced(p: Point, q: Point)
    ensures 0 <= Sum(p, q).x < P && 0 <= Sum(p, q).y < P
  {
    hide *;
    SumMeaning(p, q);
  }

  // ----- d is not a square -----

  // 2 d has a square root r. Were d the square of s, then (1 + i) s over r would be a square root of i, of order 8; but
  // p - 1 is 4 modulo 8.
  const ROOTOF2D: int := 0x5531cdb02f53976ef34bf39cfb549482449c01e5e3ea252a3b885e46ebd673d

  lemma NoRootOfD(s: int)
    requires Fermat()
    ensures !Cong(s * s, D)
  {
    hide *;
    if Cong(s * s, D) {
      RootConstant();
      Constants();
      var a := (1 + ROOT) * s;
      EighthRoot(D, ROOT, s, ROOTOF2D);
      NonzeroRoots(D, ROOT, s, ROOTOF2D);
      OrderOfRoot(a, ROOT, ROOTOF2D);
    }
  }

  lemma RootConstant()
    ensures Cong(ROOTOF2D * ROOTOF2D, 2 * D) && !Cong(2 * D, 0) && !Cong(1 + ROOT, 0)
  {
    CongWitness(ROOTOF2D * ROOTOF2D, 2 * D,
                100187274762113684202528266968023186475612458073863646331247774855231945199);
    CongMeaning(2 * D, 0);
    CongMeaning(1 + ROOT, 0);
  }

  // ((1 + i) s)^2 = 2 i s^2 = i r^2
  lemma EighthRoot(d: int, i: int, s: int, r: int)
    requires Cong(s * s, d) && Cong(i * i, -1) && Cong(r * r, 2 * d)
    ensures Cong(((1 + i) * s) * ((1 + i) * s), i * (r * r))
  {
    hide *;
    Regroup(1 + i, s, 1 + i, s);
    assert (1 + i) * (1 + i) == 1 + 2 * i + i * i;
    CongSelf(1 + 2 * i, 1 + 2 * i);
    CongAdd(1 + 2 * i, 1 + 2 * i, i * i, -1);
    CongMul((1 + i) * (1 + i), 2 * i, s * s, d);
    CongSym(r * r, 2 * d);
    CongTimes(2 * d, r * r, i);
    assert (2 * i) * d == i * (2 * d);
    CongTrans(((1 + i) * s) * ((1 + i) * s), (2 * i) * d, i * (r * r));
  }

  lemma NonzeroRoots(d: int, i: int, s: int, r: int)
    requires Fermat() && Cong(s * s, d) && Cong(r * r, 2 * d) && !Cong(2 * d, 0) && !Cong(1 + i, 0)
    ensures !Cong((1 + i) * s, 0) && !Cong(r, 0)
  {
    hide *;
    if Cong(r, 0) {
      CongTimes(r, 0, r);
      CongSym(r * r, 2 * d);
      CongTrans(2 * d, r * r, 0);
    }
    if Cong(s, 0) {
      CongTimes(s, 0, s);
      CongSym(s * s, d);
      CongTrans(d, s * s, 0);
      CongTimes(d, 0, 2);
    }
    NoZeroDivisors(1 + i, s);
  }

  // a^2 = i r^2 is impossible for nonzero a and r.
  lemma OrderOfRoot(a: int, i: int, r: int)
    requires Fermat() && Cong(i * i, -1) && !Cong(a, 0) && !Cong(r, 0)
    ensures !Cong(a * a, i * (r * r))
  {
    hide Cong, Pow, Fermat;
    if Cong(a * a, i * (r * r)) {
      var A, R := Pow(a, P - 1), Pow(r, P - 1);
      FermatAt(a);
      FermatAt(r);
      RaiseBoth(a, i, r);
      CongTimes(R, 1, -1);
      CongTrans(A, -1 * R, -1);
      CongSym(A, 1);
      CongTrans(1, A, -1);
      OneIsNotMinusOne();
    }
  }

  // Both sides raised to (p - 1) / 2, an odd multiple of 2.
  lemma {:induction false} RaiseBoth(a: int, i: int, r: int)
    requires Cong(i * i, -1) && Cong(a * a, i * (r * r))
    ensures Cong(Pow(a, P - 1), -1 * Pow(r, P - 1))
  {
    hide Cong, Pow;
    var m := (P - 1) / 4;
    assert P - 1 == (m + m) + (m + m) && m % 2 == 1;
    SquarePower(a, m + m);
    SquarePower(r, m + m);
    SquarePower(i, m);
    PowCong(a * a, i * (r * r), m + m);
    PowProduct(i, r * r, m + m);
    PowCong(i * i, -1, m);
    PowMinusOne(m);
    CongTimes(Pow(i, m + m), -1, Pow(r * r, m + m));
    CongTrans(Pow(a * a, m + m), Pow(i, m + m) * Pow(r * r, m + m), -1 * Pow(r * r, m + m));
  }

  lemma OneIsNotMinusOne()
    ensures !Cong(1, -1)
  {
    CongMeaning(1, -1);
  }

  lemma {:induction false} SquarePower(z: int, m: nat)
    ensures Pow(z * z, m) == Pow(z, m + m)
  {
    hide *;
    PowProduct(z, z, m);
    PowAdd(z, m, m);
  }

  lemma {:induction false} PowMinusOne(m: nat)
    ensures Pow(-1, m) == if m % 2 == 0 then 1 else -1
    decreases m
  {
    if m > 0 {
      PowMinusOne(m - 1);
    }
  }

  // ----- completeness: the denominators are never zero -----

  lemma Complete(p: Point, q: Point)
    requires Fermat() && OnCurve(p) && OnCurve(q)
    ensures !Cong(1 + Cross(p, q), 0) && !Cong(1 - Cross(p, q), 0)
  {
    hide *;
    var k := Cross(p, q);
    NotUnit(p, q, -1);
    NotUnit(p, q, 1);
    UnitDenominators(k);
  }

  lemma UnitDenominators(k: int)
    requires !Cong(k, 1) && !Cong(k, -1)
    ensures !Cong(1 + k, 0) && !Cong(1 - k, 0)
  {
    hide *;
    if Cong(1 + k, 0) {
      var q := CongElim(1 + k, 0);
      CongWitness(k, -1, q);
    }
    if Cong(1 - k, 0) {
      var q := CongElim(1 - k, 0);
      CongWitness(k, 1, -q);
    }
  }

  lemma NotUnit(p: Point, q: Point, e: int)
    requires Fermat() && OnCurve(p) && OnCurve(q)
    requires e == 1 || e == -1
    ensures !Cong(Cross(p, q), e)
  {
    hide *;
    if Cong(Cross(p, q), e) {
      var root := RootOfD(p, q, e);
      NoRootOfD(root);
    }
  }

  // A square root of d, were a denominator to vanish.
  lemma RootOfD(p: Point, q: Point, e: int) returns (root: int)
    requires Fermat() && OnCurve(p) && OnCurve(q)
    requires (e == 1 || e == -1) && Cong(Cross(p, q), e)
    ensures Cong(root * root, D)
  {
    hide *;
    var u, v := p.x * p.y, q.x * q.y;
    CrossMeaning(p, q);
    OnCurveEquation(p);
    OnCurveEquation(q);
    Constants();
    var n := -ROOT;
    assert n * n == ROOT * ROOT;
    UnitFactors(u, v, e);
    if Cong(ROOT * q.x + q.y, 0) && Cong(n * q.x + q.y, 0) {
      BothZero(ROOT * q.x, q.y, v, q.x);
    }
    if !Cong(ROOT * q.x + q.y, 0) {
      root := SquareRootOfD(ROOT, p.x, p.y, q.x, q.y, e);
    } else {
      root := SquareRootOfD(n, p.x, p.y, q.x, q.y, e);
    }
  }

  lemma UnitFactors(u: int, v: int, e: int)
    requires Cong(D * (u * v), e) && (e == 1 || e == -1)
    ensures !Cong(u, 0) && !Cong(v, 0)
  {
    hide *;
    UnitNotZero(D * (u * v), e);
    ZeroFactors(u, v);
  }

  lemma ZeroFactors(u: int, v: int)
    ensures Cong(u, 0) || Cong(v, 0) ==> Cong(D * (u * v), 0)
  {
    hide *;
    if Cong(u, 0) {
      CongTimes(u, 0, D * v);
      assert u * (D * v) == D * (u * v);
    } else if Cong(v, 0) {
      CongTimes(v, 0, D * u);
      assert v * (D * u) == D * (u * v);
    }
  }

  lemma UnitNotZero(b: int, e: int)
    requires Cong(b, e) && (e == 1 || e == -1)
    ensures !Cong(b, 0)
  {
    hide *;
    ZeroNotOne();
    CongSym(b, e);
    NonzeroCong(e, b);
  }

  lemma BothZero(r: int, y: int, v: int, x: int)
    requires Cong(r + y, 0) && Cong(-r + y, 0) && v == x * y
    ensures Cong(v, 0)
  {
    hide *;
    CongAdd(r + y, 0, -r + y, 0);
    CongTimes(2 * y, 0, (P + 1) / 2);
    HalveY(y);
    CongTrans(y, ((P + 1) / 2) * (2 * y), 0);
    CongTimes(y, 0, x);
  }

  lemma HalveY(y: int)
    ensures Cong(y, ((P + 1) / 2) * (2 * y))
  {
    CongWitness(y, ((P + 1) / 2) * (2 * y), -y);
  }

  // If d x1 x2 y1 y2 = e = 1 or -1, then (i x1 + e y1)^2 = d (x1 y1 (i x2 + y2))^2 for a square root i of -1.
  lemma SquareRootOfD(i: int, x1: int, y1: int, x2: int, y2: int, e: int) returns (root: int)
    requires Fermat() && CurveEquation(x1, y1) && CurveEquation(x2, y2)
    requires Cong(i * i, -1) && (e == 1 || e == -1) && Cong(D * ((x1 * y1) * (x2 * y2)), e)
    requires !Cong(x1 * y1, 0) && !Cong(i * x2 + y2, 0)
    ensures Cong(root * root, D)
  {
    hide *;
    var s, t := i * x1 + e * y1, i * x2 + y2;
    var u := x1 * y1;
    CurveMeaning(x1, y1);
    CurveMeaning(x2, y2);
    LeftSquare(D, i, x1, y1, e);
    RightSquare(D, i, x2, y2, u, e);
    var target := 1 + D * (u * u) + 2 * (e * (i * u));
    CongSym(D * ((u * t) * (u * t)), target);
    CongTrans(s * s, target, D * ((u * t) * (u * t)));
    NoZeroDivisors(u, t);
    root := DivideSquare(s, u * t);
  }

  lemma DivideSquare(s: int, w: int) returns (root: int)
    requires Fermat() && !Cong(w, 0) && Cong(s * s, D * (w * w))
    ensures Cong(root * root, D)
  {
    hide *;
    InvCancels(w);
    var c := Inv(w);
    root := s * c;
    CongTimes(s * s, D * (w * w), c * c);
    CongMul(w * c, 1, w * c, 1);
    CongTimes((w * c) * (w * c), 1, D);
    assert (s * s) * (c * c) == root * root;
    assert (D * (w * w)) * (c * c) == D * ((w * c) * (w * c)) by {
      RegroupSquares(D, w, c);
    }
    CongTrans(root * root, D * ((w * c) * (w * c)), D);
  }

  lemma RegroupSquares(d: int, w: int, c: int)
    ensures (d * (w * w)) * (c * c) == d * ((w * c) * (w * c))
  {
    assert (w * c) * (w * c) == (w * w) * (c * c);
  }

  // (i x + e y)^2 = 1 + d (x y)^2 + 2 e i x y on the curve
  lemma LeftSquare(d: int, i: int, x: int, y: int, e: int)
    requires Cong(y * y - x * x, 1 + d * ((x * y) * (x * y))) && Cong(i * i, -1) && (e == 1 || e == -1)
    ensures var s, u := i * x + e * y, x * y; Cong(s * s, 1 + d * (u * u) + 2 * (e * (i * u)))
  {
    hide *;
    var s, u := i * x + e * y, x * y;
    var c := 2 * (e * (i * u));
    CongTimes(i * i, -1, x * x);
    CongSelf(y * y + c, y * y + c);
    CongAdd((i * i) * (x * x), -1 * (x * x), y * y + c, y * y + c);
    ExpandSquare(i, x, y, e);
    assert -1 * (x * x) + (y * y + c) == (y * y - x * x) + c;
    CongSelf(c, c);
    CongAdd(y * y - x * x, 1 + d * (u * u), c, c);
    CongTrans(s * s, (y * y - x * x) + c, 1 + d * (u * u) + c);
  }

  lemma ExpandSquare(i: int, x: int, y: int, e: int)
    requires e * e == 1
    ensures (i * x + e * y) * (i * x + e * y) == (i * i) * (x * x) + (y * y + 2 * (e * (i * (x * y))))
  {
    var a, b := i * x, e * y;
    assert (a + b) * (a + b) == a * a + 2 * (a * b) + b * b;
    assert a * a == (i * i) * (x * x);
    assert b * b == (e * e) * (y * y);
    assert a * b == e * (i * (x * y));
  }

  // d (u (i x + y))^2 = 1 + d u^2 + 2 e i u on the curve, when d u x y = e
  lemma RightSquare(d: int, i: int, x: int, y: int, u: int, e: int)
    requires Cong(y * y - x * x, 1 + d * ((x * y) * (x * y))) && Cong(i * i, -1) && (e == 1 || e == -1)
    requires Cong(d * (u * (x * y)), e)
    ensures var t := i * x + y; Cong(d * ((u * t) * (u * t)), 1 + d * (u * u) + 2 * (e * (i * u)))
  {
    hide *;
    var t, v := i * x + y, x * y;
    var k := d * (u * v);
    assert 1 * y == y;
    LeftSquare(d, i, x, y, 1);
    var full := 1 + d * (v * v) + 2 * (1 * (i * v));
    CongTimes(t * t, full, d * (u * u));
    CongMul(k, e, k, e);
    CongTimes(k, e, 2 * (i * u));
    CongSelf(d * (u * u), d * (u * u));
    CongAdd(k * k, e * e, d * (u * u), d * (u * u));
    CongAdd(k * k + d * (u * u), e * e + d * (u * u), (2 * (i * u)) * k, (2 * (i * u)) * e);
    RightExpand(d, u, v, i, t);
    RightTarget(d * (u * u), i * u, e);
    CongTrans(d * ((u * t) * (u * t)), k * k + d * (u * u) + (2 * (i * u)) * k,
              e * e + d * (u * u) + (2 * (i * u)) * e);
  }

  lemma RightExpand(d: int, u: int, v: int, i: int, t: int)
    ensures var k := d * (u * v);
            (d * (u * u)) * (1 + d * (v * v) + 2 * (1 * (i * v))) == k * k + d * (u * u) + (2 * (i * u)) * k
    ensures (d * (u * u)) * (t * t) == d * ((u * t) * (u * t))
  {
    var k, a := d * (u * v), d * (u * u);
    assert k * k == a * (d * (v * v)) by {
      assert (u * v) * (u * v) == (u * u) * (v * v);
    }
    assert (i * u) * k == a * (i * v);
    RegroupSquares(d, u, t);
  }

  lemma RightTarget(a: int, w: int, e: int)
    requires e == 1 || e == -1
    ensures e * e + a + (2 * w) * e == 1 + a + 2 * (e * w)
  {
  }

  // ----- the group laws that need no heavy algebra -----

  lemma SumFractions(p: Point, q: Point)
    requires Fermat() && OnCurve(p) && OnCurve(q)
    ensures var s, k := Sum(p, q), Cross(p, q);
            && Cong(s.x * (1 + k), p.x * q.y + q.x * p.y)
            && Cong(s.y * (1 - k), p.y * q.y + p.x * q.x)
  {
    hide *;
    Complete(p, q);
    var k := Cross(p, q);
    var n, m := p.x * q.y + q.x * p.y, p.y * q.y + p.x * q.x;
    Quotient(n, 1 + k);
    Quotient(m, 1 - k);
    SumMeaning(p, q);
    var s := Sum(p, q);
    CongTimes(s.x, n * Inv(1 + k), 1 + k);
    CongTrans(s.x * (1 + k), (n * Inv(1 + k)) * (1 + k), n);
    CongTimes(s.y, m * Inv(1 - k), 1 - k);
    CongTrans(s.y * (1 - k), (m * Inv(1 - k)) * (1 - k), m);
  }

  // The fractions determine the sum.
  lemma SumUnique(p: Point, q: Point, x: int, y: int)
    requires Fermat() && OnCurve(p) && OnCurve(q)
    requires 0 <= x < P && 0 <= y < P
    requires Cong(x * (1 + Cross(p, q)), p.x * q.y + q.x * p.y)
    requires Cong(y * (1 - Cross(p, q)), p.y * q.y + p.x * q.x)
    ensures Sum(p, q) == Point(x, y)
  {
    hide *;
    Complete(p, q);
    SumFractions(p, q);
    var k, s := Cross(p, q), Sum(p, q);
    var n, m := p.x * q.y + q.x * p.y, p.y * q.y + p.x * q.x;
    CongSym(x * (1 + k), n);
    CongTrans(s.x * (1 + k), n, x * (1 + k));
    Cancel(s.x, x, 1 + k);
    CongSym(y * (1 - k), m);
    CongTrans(s.y * (1 - k), m, y * (1 - k));
    Cancel(s.y, y, 1 - k);
    SumReduced(p, q);
    CongUnique(s.x, x);
    CongUnique(s.y, y);
  }

  lemma Commutative(p: Point, q: Point)
    ensures Sum(p, q) == Sum(q, p)
  {
    hide *;
    SumMeaning(p, q);
    SumMeaning(q, p);
    CrossMeaning(p, q);
    CrossMeaning(q, p);
    assert Cross(p, q) == Cross(q, p);
    assert p.x * q.y + q.x * p.y == q.x * p.y + p.x * q.y;
    assert p.y * q.y + p.x * q.x == q.y * p.y + q.x * p.x;
  }

  lemma OriginOnCurve()
    ensures OnCurve(ORIGIN)
  {
    CongSelf(1 * 1 - 0 * 0, 1 + D * ((0 * 1) * (0 * 1)));
    CurveMeaning(0, 1);
    OnCurveMeaning(ORIGIN);
  }

  lemma Neutral(p: Point)
    requires Fermat() && OnCurve(p)
    ensures Sum(p, ORIGIN) == p
  {
    hide Cong, Cross, Fermat, Sum;
    OriginOnCurve();
    CrossOrigin(p);
    CongSelf(p.x * 1, p.x * 1 + 0 * p.y);
    CongSelf(p.y * 1, p.y * 1 + p.x * 0);
    OnCurveMeaning(p);
    SumUnique(p, ORIGIN, p.x, p.y);
  }

  lemma CrossOrigin(p: Point)
    ensures Cross(p, ORIGIN) == 0
  {
    CrossMeaning(p, ORIGIN);
    assert (p.x * p.y) * (0 * 1) == 0;
  }

  lemma NegativeOnCurve(p: Point)
    requires OnCurve(p)
    ensures OnCurve(Negative(p))
  {
    hide Cong, Residue, CurveEquation;
    OnCurveMeaning(p);
    NegativeEquation(p.x, p.y, Residue(-p.x));
    OnCurveMeaning(Negative(p));
  }

  lemma NegativeEquation(x: int, y: int, n: int)
    requires CurveEquation(x, y) && Cong(n, -x)
    ensures CurveEquation(n, y)
  {
    hide *;
    CurveMeaning(x, y);
    CurveMeaning(n, y);
    CongMul(n, -x, n, -x);
    CongTimes(n, -x, y);
    CongMul(n * y, -x * y, n * y, -x * y);
    NegativeSquares(x, y);
    CongTimes((n * y) * (n * y), (x * y) * (x * y), D);
    var w := (x * y) * (x * y);
    CongSelf(y * y, y * y);
    CongSelf(1, 1);
    CongAdd(y * y, y * y, n * n, x * x);
    CongAdd(1, 1, D * ((n * y) * (n * y)), D * w);
    CongSym(1 + D * ((n * y) * (n * y)), 1 + D * w);
    CongTrans(y * y - n * n, y * y - x * x, 1 + D * w);
    CongTrans(y * y - n * n, 1 + D * w, 1 + D * ((n * y) * (n * y)));
  }

  lemma NegativeSquares(x: int, y: int)
    ensures (-x) * (-x) == x * x
    ensures (-x * y) * (-x * y) == (x * y) * (x * y)
  {
    assert -x * y == -(x * y);
  }

  lemma Inverse(p: Point)
    requires Fermat() && OnCurve(p)
    ensures Sum(p, Negative(p)) == ORIGIN
  {
    hide *;
    var q, k := Negative(p), Cross(p, Negative(p));
    NegativeOnCurve(p);
    NegativeIs(p);
    CrossMeaning(p, q);
    OnCurveEquation(p);
    InverseNumerator(p.x, p.y, q.x);
    InverseDenominator(p.x, p.y, q.x, k);
    UnitTerms(k);
    SmallPrime();
    SumUnique(p, q, 0, 1);
  }

  lemma NegativeIs(p: Point)
    ensures Negative(p).y == p.y && Cong(Negative(p).x, -p.x)
  {
    hide Residue, Cong;
  }

  lemma UnitTerms(k: int)
    ensures 0 * (1 + k) == 0 && 1 * (1 - k) == 1 - k && Point(0, 1) == ORIGIN
  {
  }

  lemma SmallPrime()
    ensures 1 < P
  {
  }

  lemma InverseNumerator(x: int, y: int, n: int)
    requires Cong(n, -x)
    ensures Cong(0, x * y + n * y)
  {
    hide *;
    CongTimes(n, -x, y);
    CongSelf(x * y, x * y);
    CongAdd(x * y, x * y, n * y, -x * y);
    assert x * y + -x * y == 0;
    CongSym(x * y + n * y, 0);
  }

  lemma InverseDenominator(x: int, y: int, n: int, k: int)
    requires Cong(n, -x) && CurveEquation(x, y) && k == D * ((x * y) * (n * y))
    ensures Cong(1 - k, y * y + x * n)
  {
    hide *;
    CurveMeaning(x, y);
    var w := (x * y) * (x * y);
    CongTimes(n, -x, y);
    CongTimes(n * y, -x * y, D * (x * y));
    InverseTerms(D, x, y, n);
    CongSelf(1, 1);
    CongAdd(1, 1, k, -(D * w));
    CongTimes(n, -x, x);
    CongSelf(y * y, y * y);
    CongAdd(y * y, y * y, x * n, x * -x);
    assert x * -x == -(x * x);
    CongSym(y * y + x * n, y * y - x * x);
    CongSym(y * y - x * x, 1 + D * w);
    CongTrans(1 - k, 1 + D * w, y * y - x * x);
    CongTrans(1 - k, y * y - x * x, y * y + x * n);
  }

  lemma InverseTerms(d: int, x: int, y: int, n: int)
    ensures d * ((x * y) * (n * y)) == (d * (x * y)) * (n * y)
    ensures (d * (x * y)) * (-x * y) == -(d * ((x * y) * (x * y)))
  {
    assert -x * y == -(x * y);
    assert (d * (x * y)) * -(x * y) == -(d * ((x * y) * (x * y)));
  }

  // ----- closure -----

  lemma Closed(p: Point, q: Point)
    requires Fermat() && OnCurve(p) && OnCurve(q)
    ensures OnCurve(Sum(p, q))
  {
    hide *;
    Complete(p, q);
    SumFractions(p, q);
    CrossMeaning(p, q);
    OnCurveEquation(p);
    OnCurveEquation(q);
    SumOnCurve(p.x, p.y, q.x, q.y, Sum(p, q).x, Sum(p, q).y, Cross(p, q));
    SumReduced(p, q);
    OnCurveMeaning(Sum(p, q));
  }

  lemma SumOnCurve(x1: int, y1: int, x2: int, y2: int, x: int, y: int, k: int)
    requires Fermat() && CurveEquation(x1, y1) && CurveEquation(x2, y2) && k == D * ((x1 * y1) * (x2 * y2))
    requires !Cong(1 + k, 0) && !Cong(1 - k, 0)
    requires Cong(x * (1 + k), x1 * y2 + x2 * y1) && Cong(y * (1 - k), y1 * y2 + x2 * x1)
    ensures CurveEquation(x, y)
  {
    hide *;
    assert x2 * x1 == x1 * x2;
    var a, b := x1 * y2 + x2 * y1, y1 * y2 + x1 * x2;
    SumIdentity(x1, y1, x2, y2);
    NoZeroDivisors(1 + k, 1 - k);
    var c := (1 + k) * (1 - k);
    NoZeroDivisors(c, c);
    ClearDenominators(x, y, a, b, 1 + k, 1 - k);
    var left, right := (b * (1 + k)) * (b * (1 + k)) - (a * (1 - k)) * (a * (1 - k)), c * c + D * ((a * b) * (a * b));
    CongTrans((y * y - x * x) * (c * c), left, right);
    CongSym((1 + D * ((x * y) * (x * y))) * (c * c), right);
    CongTrans((y * y - x * x) * (c * c), right, (1 + D * ((x * y) * (x * y))) * (c * c));
    Cancel(y * y - x * x, 1 + D * ((x * y) * (x * y)), c * c);
    CurveMeaning(x, y);
  }

  // With x e = a and y f = b, both sides of the curve equation times (e f)^2.
  lemma ClearDenominators(x: int, y: int, a: int, b: int, e: int, f: int)
    requires Cong(x * e, a) && Cong(y * f, b)
    ensures var c := e * f;
            && Cong((y * y - x * x) * (c * c), (b * e) * (b * e) - (a * f) * (a * f))
            && Cong((1 + D * ((x * y) * (x * y))) * (c * c), c * c + D * ((a * b) * (a * b)))
  {
    hide *;
    var c := e * f;
    CongTimes(y * f, b, e);
    CongMul((y * f) * e, b * e, (y * f) * e, b * e);
    CongTimes(x * e, a, f);
    CongMul((x * e) * f, a * f, (x * e) * f, a * f);
    CongAdd(((y * f) * e) * ((y * f) * e), (b * e) * (b * e), ((x * e) * f) * ((x * e) * f), (a * f) * (a * f));
    ClearLeft(x, y, e, f);
    CongMul(x * e, a, y * f, b);
    var w := (x * e) * (y * f);
    CongMul(w, a * b, w, a * b);
    CongTimes(w * w, (a * b) * (a * b), D);
    CongSelf(c * c, c * c);
    CongAdd(c * c, c * c, D * (w * w), D * ((a * b) * (a * b)));
    ClearRight(D, x, y, e, f);
  }

  lemma ClearLeft(x: int, y: int, e: int, f: int)
    ensures ((y * f) * e) * ((y * f) * e) - ((x * e) * f) * ((x * e) * f) == (y * y - x * x) * ((e * f) * (e * f))
  {
    var c := e * f;
    assert (y * f) * e == y * c && (x * e) * f == x * c;
    assert (y * c) * (y * c) == (y * y) * (c * c);
    assert (x * c) * (x * c) == (x * x) * (c * c);
  }

  lemma ClearRight(d: int, x: int, y: int, e: int, f: int)
    ensures var w, c := (x * e) * (y * f), e * f;
            (1 + d * ((x * y) * (x * y))) * (c * c) == c * c + d * (w * w)
  {
    var w, c, u := (x * e) * (y * f), e * f, x * y;
    assert w == u * c;
    RegroupSquares(d, u, c);
  }

  // The identity behind closure: b^2 (1+k)^2 - a^2 (1-k)^2 = (1-k^2)^2 + d (a b)^2 for two points of the curve.
  lemma SumIdentity(x1: int, y1: int, x2: int, y2: int)
    requires CurveEquation(x1, y1) && CurveEquation(x2, y2)
    ensures var a, b, k := x1 * y2 + x2 * y1, y1 * y2 + x1 * x2, D * ((x1 * y1) * (x2 * y2));
            var c := (1 + k) * (1 - k);
            Cong((b * (1 + k)) * (b * (1 + k)) - (a * (1 - k)) * (a * (1 - k)), c * c + D * ((a * b) * (a * b)))
  {
    hide *;
    CurveMeaning(x1, y1);
    CurveMeaning(x2, y2);
    var a, b := x1 * y2 + x2 * y1, y1 * y2 + x1 * x2;
    var u, v := x1 * y1, x2 * y2;
    var k := D * (u * v);
    var c := (1 + k) * (1 - k);
    var a1, a2, s1, s2 := y1 * y1 - x1 * x1, y2 * y2 - x2 * x2, y1 * y1 + x1 * x1, y2 * y2 + x2 * x2;
    var alpha, beta := D * (u * u), D * (v * v);
    NumeratorProducts(x1, y1, x2, y2);
    SquareOfSum(x1, y1);
    SquareOfSum(x2, y2);
    LeftForm(a, b, k, a1 * a2, s1 * s2 + 4 * (u * v));
    RightForm(D, a * b, u, v, s1, s2, a1, a2);
    // a1 = 1 + alpha and a2 = 1 + beta on the curve
    CongMul(a1, 1 + alpha, a2, 1 + beta);
    CongTimes(a1 * a2, (1 + alpha) * (1 + beta), 1 + k * k);
    CongMul(a1, 1 + alpha, a1, 1 + alpha);
    CongMul(a2, 1 + beta, a2, 1 + beta);
    CongTimes(a2 * a2, (1 + beta) * (1 + beta), alpha);
    CongTimes(a1 * a1, (1 + alpha) * (1 + alpha), beta);
    CongSelf(c * c, c * c);
    CongAdd(c * c, c * c, alpha * (a2 * a2), alpha * ((1 + beta) * (1 + beta)));
    CongAdd(c * c + alpha * (a2 * a2), c * c + alpha * ((1 + beta) * (1 + beta)),
            beta * (a1 * a1), beta * ((1 + alpha) * (1 + alpha)));
    SquareOfCross(D, u, v);
    ClosureTerms(alpha, beta, k);
    CongSym(c * c + alpha * (a2 * a2) + beta * (a1 * a1),
            c * c + alpha * ((1 + beta) * (1 + beta)) + beta * ((1 + alpha) * (1 + alpha)));
    CongTrans((a1 * a2) * (1 + k * k), ((1 + alpha) * (1 + beta)) * (1 + k * k),
              c * c + alpha * (a2 * a2) + beta * (a1 * a1));
    var rest := 2 * (k * (s1 * s2)) + 8 * (k * (u * v));
    CongSelf(rest, rest);
    CongAdd((a1 * a2) * (1 + k * k), c * c + alpha * (a2 * a2) + beta * (a1 * a1), rest, rest);
    Assemble(k, s1 * s2, u * v);
  }

  lemma Assemble(k: int, s: int, w: int)
    ensures 2 * (k * (s + 4 * w)) == 2 * (k * s) + 8 * (k * w)
  {
  }

  lemma NumeratorProducts(x1: int, y1: int, x2: int, y2: int)
    ensures var a, b := x1 * y2 + x2 * y1, y1 * y2 + x1 * x2;
            && b * b - a * a == (y1 * y1 - x1 * x1) * (y2 * y2 - x2 * x2)
            && b * b + a * a == (y1 * y1 + x1 * x1) * (y2 * y2 + x2 * x2) + 4 * ((x1 * y1) * (x2 * y2))
            && a * b == (x1 * y1) * (y2 * y2 + x2 * x2) + (x2 * y2) * (y1 * y1 + x1 * x1)
  {
    DifferenceProduct(x1, y1, x2, y2);
    SumProduct(x1, y1, x2, y2);
    CrossProduct(x1, y1, x2, y2);
  }

  lemma DifferenceProduct(x1: int, y1: int, x2: int, y2: int)
    ensures var a, b := x1 * y2 + x2 * y1, y1 * y2 + x1 * x2;
            b * b - a * a == (y1 * y1 - x1 * x1) * (y2 * y2 - x2 * x2)
  {
  }

  lemma SumProduct(x1: int, y1: int, x2: int, y2: int)
    ensures var a, b := x1 * y2 + x2 * y1, y1 * y2 + x1 * x2;
            b * b + a * a == (y1 * y1 + x1 * x1) * (y2 * y2 + x2 * x2) + 4 * ((x1 * y1) * (x2 * y2))
  {
  }

  lemma CrossProduct(x1: int, y1: int, x2: int, y2: int)
    ensures (x1 * y2 + x2 * y1) * (y1 * y2 + x1 * x2)
            == (x1 * y1) * (y2 * y2 + x2 * x2) + (x2 * y2) * (y1 * y1 + x1 * x1)
  {
  }

  lemma SquareOfSum(x: int, y: int)
    ensures (y * y + x * x) * (y * y + x * x) == (y * y - x * x) * (y * y - x * x) + 4 * ((x * y) * (x * y))
  {
  }

  lemma LeftForm(a: int, b: int, k: int, difference: int, sum: int)
    requires b * b - a * a == difference && b * b + a * a == sum
    ensures (b * (1 + k)) * (b * (1 + k)) - (a * (1 - k)) * (a * (1 - k)) == difference * (1 + k * k) + 2 * (k * sum)
  {
    assert (b * (1 + k)) * (b * (1 + k)) == (b * b) * (1 + 2 * k + k * k);
    assert (a * (1 - k)) * (a * (1 - k)) == (a * a) * (1 - 2 * k + k * k);
    LeftLinear(a * a, b * b, k, k * k);
  }

  lemma LeftLinear(a: int, b: int, k: int, q: int)
    ensures b * (1 + 2 * k + q) - a * (1 - 2 * k + q) == (b - a) * (1 + q) + 2 * (k * (b + a))
  {
  }

  lemma RightForm(d: int, product: int, u: int, v: int, s1: int, s2: int, a1: int, a2: int)
    requires product == u * s2 + v * s1
    requires s1 * s1 == a1 * a1 + 4 * (u * u) && s2 * s2 == a2 * a2 + 4 * (v * v)
    ensures d * (product * product) == (d * (u * u)) * (a2 * a2) + (d * (v * v)) * (a1 * a1)
                                       + 2 * ((d * (u * v)) * (s1 * s2)) + 8 * ((d * (u * v)) * (u * v))
  {
    SquareOfProduct(u, s2, v, s1);
    SquareOfCross(1, u, v);
    RightLinear(d, u * u, v * v, u * v, s1 * s2, a1 * a1, a2 * a2);
  }

  lemma SquareOfProduct(u: int, s2: int, v: int, s1: int)
    ensures (u * s2 + v * s1) * (u * s2 + v * s1)
            == (u * u) * (s2 * s2) + (v * v) * (s1 * s1) + 2 * ((u * v) * (s1 * s2))
  {
    assert (u * s2) * (u * s2) == (u * u) * (s2 * s2);
    assert (v * s1) * (v * s1) == (v * v) * (s1 * s1);
    assert (u * s2) * (v * s1) == (u * v) * (s1 * s2);
    BinomialSquare(u * s2, v * s1);
  }

  lemma BinomialSquare(a: int, b: int)
    ensures (a + b) * (a + b) == a * a + b * b + 2 * (a * b)
  {
  }

  lemma RightLinear(d: int, u: int, v: int, w: int, s: int, a1: int, a2: int)
    requires w * w == u * v
    ensures d * (u * (a2 + 4 * v) + v * (a1 + 4 * u) + 2 * (w * s))
            == (d * u) * a2 + (d * v) * a1 + 2 * ((d * w) * s) + 8 * ((d * w) * w)
  {
    assert (d * w) * w == d * (u * v);
    assert u * (a2 + 4 * v) + v * (a1 + 4 * u) == u * a2 + v * a1 + 8 * (u * v);
  }

  lemma SquareOfCross(d: int, u: int, v: int)
    ensures (d * (u * v)) * (d * (u * v)) == (d * (u * u)) * (d * (v * v))
  {
    assert (u * v) * (u * v) == (u * u) * (v * v);
  }

  lemma ClosureTerms(alpha: int, beta: int, k: int)
    requires k * k == alpha * beta
    ensures ((1 + alpha) * (1 + beta)) * (1 + k * k)
            == ((1 + k) * (1 - k)) * ((1 + k) * (1 - k)) + alpha * ((1 + beta) * (1 + beta))
                + beta * ((1 + alpha) * (1 + alpha))
  {
    assert (1 + k) * (1 - k) == 1 - alpha * beta;
    var m := alpha * beta;
    assert (1 - m) * (1 - m) == 1 - 2 * m + m * m;
    assert alpha * ((1 + beta) * (1 + beta)) == alpha + 2 * m + m * beta;
    assert beta * ((1 + alpha) * (1 + alpha)) == beta + 2 * m + m * alpha;
    assert ((1 + alpha) * (1 + beta)) * (1 + m) == 1 + alpha + beta + m + (1 + alpha + beta + m) * m;
  }
}
