// ntfe/ed25519/ge.c: ge_frombytes_negate_vartime, which takes the square root (y^2 - 1) / (d y^2 + 1) and returns the
// negated point.
module PointDecoding {
  import opened Bytes
  import opened Congruence
  import opened Limbs
  import opened Packing
  import opened FieldArithmetic
  import opened FieldBytes
  import opened FieldPower
  import opened EdwardsCurve
  import opened GroupElements
  import opened PointEncoding

  // ----- the square root -----

  // v x^2 = u is the curve equation for x, where u = y^2 - 1 and v = d y^2 + 1.
  lemma RatioEquation(x: int, y: int)
    ensures CurveEquation(x, y) <==> Cong((D * (y * y) + 1) * (x * x), y * y - 1)
  {
    hide *;
    var a, b := y * y - x * x, 1 + D * ((x * y) * (x * y));
    var c, e := (D * (y * y) + 1) * (x * x), y * y - 1;
    CurveMeaning(x, y);
    RatioTerms(D, x, y);
    Opposite(a, b, c, e);
  }

  lemma RatioTerms(d: int, x: int, y: int)
    ensures (y * y - x * x) - (1 + d * ((x * y) * (x * y))) == -((d * (y * y) + 1) * (x * x) - (y * y - 1))
  {
    assert (x * y) * (x * y) == (y * y) * (x * x);
    var a, b := x * x, y * y;
    assert (d * b + 1) * a == d * (b * a) + a;
  }

  lemma Opposite(a: int, b: int, c: int, e: int)
    requires a - b == -(c - e)
    ensures Cong(a, b) <==> Cong(c, e)
  {
    hide *;
    if Cong(a, b) {
      var q := CongElim(a, b);
      CongWitness(c, e, -q);
    } else if Cong(c, e) {
      var q := CongElim(c, e);
      CongWitness(a, b, -q);
    }
  }

  // d y^2 + 1 never vanishes, because -1 is a square and d is not.
  lemma DenominatorNonzero(y: int)
    requires Fermat()
    ensures !Cong(D * (y * y) + 1, 0)
  {
    hide *;
    Constants();
    ZeroNotOne();
    if Cong(D * (y * y) + 1, 0) {
      CongDifference(D * (y * y), -1);
      ShiftOne(D * (y * y));
      if Cong(y, 0) {
        CongTimes(y, 0, D * y);
        assert y * (D * y) == D * (y * y);
        CongSym(D * (y * y), -1);
        CongTrans(-1, D * (y * y), 0);
      }
      CongSym(D * (y * y), -1);
      CongTrans(ROOT * ROOT, -1, D * (y * y));
      var root := DivideSquare(ROOT, y);
      NoRootOfD(root);
    }
  }

  lemma ShiftOne(a: int)
    ensures Cong(a + 1, 0) <==> Cong(a, -1)
  {
    hide *;
    CongDifference(a, -1);
  }

  ghost function Cube(v: int): int {
    (v * v) * v
  }

  // u v^7
  ghost function Radicand(u: int, v: int): int {
    ((Cube(v) * Cube(v)) * v) * u
  }

  // u v^3 (u v^7)^((p - 5) / 8)
  ghost function Candidate(u: int, v: int): int {
    (Pow(Radicand(u, v), (P - 5) / 8) * Cube(v)) * u
  }

  // v x^2 = u (u v^7)^((p - 1) / 4) for the candidate x
  lemma CandidateSquare(u: int, v: int)
    ensures var x := Candidate(u, v);
            (x * x) * v == u * Pow(Radicand(u, v), (P - 1) / 4)
  {
    hide Pow, Cube;
    var z, e := Radicand(u, v), (P - 5) / 8;
    var w := Pow(z, e);
    PowAdd(z, e, e);
    PowAdd(z, e + e, 1);
    assert e + e + 1 == (P - 1) / 4;
    PowFirst(z);
    SquareTerms(w, Cube(v), u, v);
    assert z * u == ((Cube(v) * Cube(v)) * v) * u * u;
    FinalTerms(u, w, z);
  }

  lemma SquareTerms(w: int, c: int, u: int, v: int)
    ensures (((w * c) * u) * ((w * c) * u)) * v == (w * w) * ((((c * c) * v) * u) * u)
  {
    var a := w * c;
    assert (a * u) * (a * u) == (a * a) * (u * u);
    assert a * a == (w * w) * (c * c);
    assert ((w * w) * (c * c)) * (u * u) * v == (w * w) * (((c * c) * v) * (u * u)) by {
      var p, q, r := w * w, c * c, u * u;
      assert (p * q) * r * v == p * ((q * v) * r);
    }
    assert (((c * c) * v) * u) * u == ((c * c) * v) * (u * u);
  }

  lemma FinalTerms(u: int, w: int, z: int)
    ensures (w * w) * (z * u) == u * ((w * w) * z)
  {
  }

  // When u / v is a square, (u v^7)^((p - 1) / 4) is 1 or -1, unless u v^7 is zero.
  lemma QuarterPower(u: int, v: int, x: int)
    requires Fermat() && Cong(v * (x * x), u) && !Cong(Radicand(u, v), 0)
    ensures var c := Pow(Radicand(u, v), (P - 1) / 4); Cong(c, 1) || Cong(c, -1)
  {
    hide Pow, Cong, Fermat, Cube;
    var z, q := Radicand(u, v), (P - 1) / 4;
    var m := (Cube(v) * v) * x;
    var c, t := Pow(z, q), Pow(m, q);
    CongSym(v * (x * x), u);
    CongTimes(u, v * (x * x), (Cube(v) * Cube(v)) * v);
    SquareRadicand(Cube(v), v, x);
    PowCong(z, m * m, q);
    PowProduct(m, m, q);
    PowAdd(m, q, q);
    PowAdd(m, q + q, q + q);
    assert q + q + (q + q) == P - 1;
    assert !Cong(m, 0) by {
      if Cong(m, 0) {
        CongTimes(m, 0, m);
        CongTrans(z, m * m, 0);
      }
    }
    FermatAt(m);
    CongMul(c, t * t, c, t * t);
    CongTrans(c * c, (t * t) * (t * t), 1);
    RootOfUnity(c);
  }

  lemma SquareRadicand(c: int, v: int, x: int)
    ensures ((c * c) * v) * (v * (x * x)) == ((c * v) * x) * ((c * v) * x)
  {
    var a := c * v;
    assert (a * x) * (a * x) == (a * a) * (x * x);
    assert a * a == ((c * c) * v) * v;
    var b, y := (c * c) * v, x * x;
    assert b * (v * y) == (b * v) * y;
  }

  lemma RootOfUnity(c: int)
    requires Fermat() && Cong(c * c, 1)
    ensures Cong(c, 1) || Cong(c, -1)
  {
    hide *;
    CongDifference(c * c, 1);
    assert c * c - 1 == (c - 1) * (c + 1);
    CongDifference(c, 1);
    ShiftOne(c);
    if !Cong(c - 1, 0) && !Cong(c + 1, 0) {
      NoZeroDivisors(c - 1, c + 1);
    }
  }

  // If u / v has a square root, the candidate's square times v is u or -u.
  lemma CandidateWorks(u: int, v: int, x: int)
    requires Fermat() && !Cong(v, 0) && Cong(v * (x * x), u)
    ensures var r := Candidate(u, v); Cong((r * r) * v, u) || Cong((r * r) * v, -u)
  {
    hide Cong, Fermat, Pow, Radicand, Candidate;
    var r, z := Candidate(u, v), Radicand(u, v);
    var c := Pow(z, (P - 1) / 4);
    CandidateSquare(u, v);
    if Cong(z, 0) {
      ZeroRadicand(u, v);
      CongTimes(u, 0, c);
      CongSym(u, 0);
      CongTrans((r * r) * v, 0, u);
    } else {
      QuarterPower(u, v, x);
      if Cong(c, 1) {
        CongTimes(c, 1, u);
      } else {
        CongTimes(c, -1, u);
        assert u * -1 == -u;
      }
    }
  }

  lemma ZeroRadicand(u: int, v: int)
    requires Fermat() && !Cong(v, 0) && Cong(Radicand(u, v), 0)
    ensures Cong(u, 0)
  {
    hide Cong, Fermat, Pow;
    if !Cong(u, 0) {
      NoZeroDivisors(v, v);
      NoZeroDivisors(v * v, v);
      NoZeroDivisors(Cube(v), Cube(v));
      NoZeroDivisors(Cube(v) * Cube(v), v);
      NoZeroDivisors((Cube(v) * Cube(v)) * v, u);
    }
  }

  // ----- the C function -----

  const DLIMBS := Fe(-10913610, 13857413, -15372611, 6949391, 114729, -8787816, -6275908, -3247719, -18696448,
      -12055116)
  const ROOTLIMBS := Fe(-32595792, -7943725, 9377950, 3500415, 12389472, -272473, -25146209, -2005654, 326686, 11406482)

  lemma LimbConstants()
    ensures Within(DLIMBS, TIGHT) && Cong(Value(DLIMBS), D)
    ensures Within(ROOTLIMBS, TIGHT) && Cong(Value(ROOTLIMBS), ROOT)
  {
    ValueMeaning(DLIMBS);
    CongWitness(Value(DLIMBS), D, -1);
    ValueMeaning(ROOTLIMBS);
    CongWitness(Value(ROOTLIMBS), ROOT, 0);
  }

  const SHIFTED := TIGHT.Plus(UNIT)

  method CandidateRoot(u: Fe, v: Fe) returns (x: Fe)
    requires Within(u, SHIFTED) && Within(v, SHIFTED)
    ensures Within(x, TIGHT) && Cong(Value(x), Candidate(Value(u), Value(v)))
  {
    hide Cong, Value, Within, Candidate, Pow;
    WithinWeaken(v, SHIFTED, LOOSE);
    var square := Square(v);
    var v3 := MulWithin(square, v, TIGHT, SHIFTED);
    WithinWeaken(v3, TIGHT, LOOSE);
    var a := Square(v3);
    var b := MulWithin(a, v, TIGHT, SHIFTED);
    var c := MulWithin(b, u, TIGHT, SHIFTED);
    WithinWeaken(c, TIGHT, LOOSE);
    var w := Pow22523(c);
    var y := MulWithin(w, v3, TIGHT, TIGHT);
    x := MulWithin(y, u, TIGHT, SHIFTED);
    RadicandChain(Value(u), Value(v), Value(square), Value(v3), Value(a), Value(b), Value(c));
    CandidateChain(Value(u), Value(v), Value(v3), Value(c), Value(w), Value(y), Value(x));
  }

  lemma RadicandChain(u: int, v: int, square: int, v3: int, a: int, b: int, c: int)
    requires Cong(square, v * v) && Cong(v3, square * v)
    requires Cong(a, v3 * v3) && Cong(b, a * v) && Cong(c, b * u)
    ensures Cong(v3, Cube(v)) && Cong(c, Radicand(u, v))
  {
    hide Cong;
    CongTimes(square, v * v, v);
    CongTrans(v3, square * v, Cube(v));
    var k := Cube(v);
    CongMul(v3, k, v3, k);
    CongTrans(a, v3 * v3, k * k);
    CongTimes(a, k * k, v);
    CongTrans(b, a * v, (k * k) * v);
    CongTimes(b, (k * k) * v, u);
    CongTrans(c, b * u, ((k * k) * v) * u);
  }

  lemma {:induction false} CandidateChain(u: int, v: int, v3: int, c: int, w: int, y: int, x: int)
    requires Cong(v3, Cube(v)) && Cong(c, Radicand(u, v))
    requires Cong(w, Pow(c, (P - 5) / 8)) && Cong(y, w * v3) && Cong(x, y * u)
    ensures Cong(x, Candidate(u, v))
  {
    hide Cong, Pow, Cube, Radicand;
    var z, e := Radicand(u, v), (P - 5) / 8;
    PowCong(c, z, e);
    CongTrans(w, Pow(c, e), Pow(z, e));
    CongMul(w, Pow(z, e), v3, Cube(v));
    CongTrans(y, w * v3, Pow(z, e) * Cube(v));
    CongTimes(y, Pow(z, e) * Cube(v), u);
    CongTrans(x, y * u, Candidate(u, v));
  }

  // x is on the curve with y exactly when its square times V is U, for values U = y^2 - 1 and V = d y^2 + 1.
  lemma OnRatio(x: int, y: int, U: int, V: int)
    requires Cong(U, y * y - 1) && Cong(V, D * (y * y) + 1)
    ensures CurveEquation(x, y) <==> Cong((x * x) * V, U)
  {
    hide *;
    RatioEquation(x, y);
    var u, v := y * y - 1, D * (y * y) + 1;
    CongTimes(V, v, x * x);
    CongSym((x * x) * V, (x * x) * v);
    CongSym(U, u);
    assert v * (x * x) == (x * x) * v;
    if Cong((x * x) * V, U) {
      CongTrans((x * x) * v, (x * x) * V, U);
      CongTrans((x * x) * v, U, u);
    }
    if Cong((x * x) * v, u) {
      CongTrans((x * x) * V, (x * x) * v, u);
      CongTrans((x * x) * V, u, U);
    }
  }

  lemma CurveCong(x: int, y: int, x': int, y': int)
    requires Cong(x, x') && Cong(y, y') && CurveEquation(x, y)
    ensures CurveEquation(x', y')
  {
    hide *;
    CurveMeaning(x, y);
    CurveMeaning(x', y');
    CongMul(x, x', x, x');
    CongMul(y, y', y, y');
    CongMul(x, x', y, y');
    CongMul(x * y, x' * y', x * y, x' * y');
    CongTimes((x * y) * (x * y), (x' * y') * (x' * y'), D);
    CongAdd(y * y, y' * y', x * x, x' * x');
    CongSelf(1, 1);
    CongAdd(1, 1, D * ((x * y) * (x * y)), D * ((x' * y') * (x' * y')));
    CongSym(y * y - x * x, y' * y' - x' * x');
    CongTrans(y' * y' - x' * x', y * y - x * x, 1 + D * ((x * y) * (x * y)));
    CongTrans(y' * y' - x' * x', 1 + D * ((x * y) * (x * y)), 1 + D * ((x' * y') * (x' * y')));
  }

  // Some x goes with y.
  ghost predicate Decodable(y: int) {
    exists x :: CurveEquation(x, y)
  }

  // Lines 147-173: a root x for y, or none.
  method SolveForX(Y: Fe) returns (code: int, X: Fe)
    requires Fermat() && Within(Y, TIGHT)
    ensures code == 0 || code == -1
    ensures code == 0 <==> Decodable(Value(Y))
    ensures code == 0 ==> Within(X, TIGHT) && CurveEquation(Value(X), Value(Y))
  {
    hide Cong, Value, Within, Fermat, CurveEquation, Candidate;
    LimbConstants();
    WithinWeaken(Y, TIGHT, LOOSE);
    var Z := One();
    var u := Square(Y);
    var v := MulWithin(u, DLIMBS, TIGHT, TIGHT);
    DenominatorChain(Value(Y), Value(u), Value(DLIMBS), Value(v));
    u := Sub(u, Z, TIGHT, UNIT);
    v := Add(v, Z, TIGHT, UNIT);
    X := CandidateRoot(u, v);
    WithinWeaken(X, TIGHT, LOOSE);
    var square := Square(X);
    var vxx := MulWithin(square, v, TIGHT, SHIFTED);
    CheckChain(Value(X), Value(square), Value(v), Value(vxx));
    ghost var y, U, V, x, w := Value(Y), Value(u), Value(v), Value(X), Value(vxx);
    NoRoot(y, U, V, x, w);
    Root(y, U, V, x, w);
    CongDifference(w, U);
    CongDifference(w, -U);
    var check := Sub(vxx, u, TIGHT, SHIFTED);
    WithinWeaken(check, TIGHT.Plus(SHIFTED), MEDIUM);
    var bad := IsNonzero(check);
    if bad {
      check := Add(vxx, u, TIGHT, SHIFTED);
      WithinWeaken(check, TIGHT.Plus(SHIFTED), MEDIUM);
      bad := IsNonzero(check);
      if bad {
        return -1, X;
      }
      X := MulWithin(X, ROOTLIMBS, TIGHT, TIGHT);
      OtherRoot(y, U, V, x, Value(ROOTLIMBS), w, Value(X));
    }
    code := 0;
  }

  lemma DenominatorChain(y: int, square: int, d: int, product: int)
    requires Cong(square, y * y) && Cong(d, D) && Cong(product, square * d)
    ensures Cong(square - 1, y * y - 1) && Cong(product + 1, D * (y * y) + 1)
  {
    hide *;
    CongSelf(1, 1);
    CongAdd(square, y * y, 1, 1);
    CongMul(square, y * y, d, D);
    CongTrans(product, square * d, D * (y * y));
    CongAdd(product, D * (y * y), 1, 1);
  }

  lemma CheckChain(x: int, square: int, v: int, vxx: int)
    requires Cong(square, x * x) && Cong(vxx, square * v)
    ensures Cong(vxx, (x * x) * v)
  {
    hide *;
    CongTimes(square, x * x, v);
    CongTrans(vxx, square * v, (x * x) * v);
  }

  // Both checks fail only when no x exists.
  lemma NoRoot(y: int, U: int, V: int, x: int, w: int)
    requires Fermat()
    requires Cong(U, y * y - 1) && Cong(V, D * (y * y) + 1)
    requires Cong(x, Candidate(U, V)) && Cong(w, (x * x) * V)
    ensures Decodable(y) ==> Cong(w, U) || Cong(w, -U)
  {
    hide Cong, CurveEquation, Fermat, Candidate;
    if Decodable(y) {
      var x0 :| CurveEquation(x0, y);
      OnRatio(x0, y, U, V);
      DenominatorNonzero(y);
      CongSym(V, D * (y * y) + 1);
      NonzeroCong(D * (y * y) + 1, V);
      assert (x0 * x0) * V == V * (x0 * x0);
      CandidateWorks(U, V, x0);
      var r := Candidate(U, V);
      CongMul(x, r, x, r);
      CongTimes(x * x, r * r, V);
      CongTrans(w, (x * x) * V, (r * r) * V);
      if Cong((r * r) * V, U) {
        CongTrans(w, (r * r) * V, U);
      } else {
        CongTrans(w, (r * r) * V, -U);
      }
    }
  }

  lemma Root(y: int, U: int, V: int, x: int, w: int)
    requires Cong(U, y * y - 1) && Cong(V, D * (y * y) + 1) && Cong(w, (x * x) * V)
    ensures Cong(w, U) ==> CurveEquation(x, y)
  {
    hide *;
    OnRatio(x, y, U, V);
    CongSym(w, (x * x) * V);
    if Cong(w, U) {
      CongTrans((x * x) * V, w, U);
    }
  }

  lemma OtherRoot(y: int, U: int, V: int, x: int, i: int, w: int, r: int)
    requires Cong(U, y * y - 1) && Cong(V, D * (y * y) + 1) && Cong(w, (x * x) * V)
    requires Cong(i, ROOT) && Cong(w, -U) && Cong(r, x * i)
    ensures CurveEquation(r, y)
  {
    hide *;
    Constants();
    CongMul(i, ROOT, i, ROOT);
    CongTrans(i * i, ROOT * ROOT, -1);
    CongMul(r, x * i, r, x * i);
    SquareProduct(x, i, V);
    CongTimes(r * r, (x * i) * (x * i), V);
    CongTimes(i * i, -1, (x * x) * V);
    CongTrans((r * r) * V, (i * i) * ((x * x) * V), -1 * ((x * x) * V));
    CongSelf(0, 0);
    CongAdd(0, 0, w, (x * x) * V);
    CongAdd(0, 0, w, -U);
    CongSym(-w, -((x * x) * V));
    CongTrans((r * r) * V, -((x * x) * V), -w);
    CongTrans((r * r) * V, -w, U);
    OnRatio(r, y, U, V);
  }

  lemma SquareProduct(x: int, i: int, v: int)
    ensures ((x * i) * (x * i)) * v == (i * i) * ((x * x) * v)
  {
    assert (x * i) * (x * i) == (i * i) * (x * x);
  }

  // The point the function returns for an encoding: y reduced, and of the two x the one whose low bit is not the
  // sign bit. (When x is zero the sign bit is ignored.)
  ghost predicate DecodesNegated(s: seq<byte>, q: Point)
    requires |s| == 32
  {
    && OnCurve(q)
    && q.y == Residue(Le(s) % EXP255)
    && (q.x == 0 || q.x % 2 != Le(s) / EXP255)
  }

  // 0 and the negated point exactly when y belongs to a point of the curve, otherwise -1
  method FromBytesNegate(s: seq<byte>) returns (code: int, h: P3, ghost q: Point)
    requires |s| == 32 && Fermat()
    ensures code == 0 || code == -1
    ensures code == 0 <==> Decodable(Le(s) % EXP255)
    ensures code == 0 ==> DecodesNegated(s, q) && IsP3(h, q)
  {
    hide Cong, Value, Within, Fermat, CurveEquation, Decodable, Le, DecodesNegated, Residue, IsP3;
    var Y := FromBytes(s);
    var Z := One();
    var X;
    code, X := SolveForX(Y);
    ghost var y := Le(s) % EXP255;
    DecodableCong(Value(Y), y);
    h := P3(X, Y, Z, Z);
    q := ORIGIN;
    if code == 0 {
      WithinWeaken(X, TIGHT, MEDIUM);
      var negative := IsNegative(X);
      TopBit(s);
      ghost var before := Value(X);
      if negative == s[31] / 128 {
        X := Neg(X, TIGHT);
      }
      ChooseSign(before, Value(X), s[31] / 128);
      var T := MulWithin(X, Y, TIGHT, TIGHT);
      h := P3(X, Y, Z, T);
      q := Point(Residue(Value(X)), Residue(Value(Y)));
      OppositeOnCurve(before, Value(X), Value(Y));
      ReducedPoint(h, q);
      ResidueCong(Value(Y), y);
      Decoded(s, q);
    }
  }

  lemma DecodableCong(y: int, y': int)
    requires Cong(y, y')
    ensures Decodable(y) <==> Decodable(y')
  {
    hide Cong, CurveEquation;
    CongSym(y, y');
    if Decodable(y) {
      var x :| CurveEquation(x, y);
      CongSelf(x, x);
      CurveCong(x, y, x, y');
    }
    if Decodable(y') {
      var x :| CurveEquation(x, y');
      CongSelf(x, x);
      CurveCong(x, y', x, y);
    }
  }

  lemma {:induction false} TopBit(s: seq<byte>)
    requires |s| == 32
    ensures s[31] / 128 == Le(s) / EXP255 <= 1
  {
    hide Le, Exp2;
    var t := s[31..];
    assert s == s[..31] + t && t == [s[31]];
    LeSplit(s[..31], t);
    LeOne(s[31]);
    LeBound(s[..31]);
    Exp248();
  }

  // Negating flips the low bit of a nonzero residue, because p is odd.
  lemma ChooseSign(before: int, after: int, sign: int)
    requires 0 <= sign <= 1
    requires after == if Residue(before) % 2 == sign then -before else before
    ensures Residue(after) == 0 || Residue(after) % 2 != sign
  {
    hide Cong, Residue;
    var r := Residue(before);
    if r % 2 == sign {
      CongSelf(0, 0);
      CongAdd(0, 0, before, r);
      if r == 0 {
        ResidueUnique(after, 0);
      } else {
        FullTurn(r);
        CongTrans(after, -r, P - r);
        ResidueUnique(after, P - r);
      }
    }
  }

  lemma FullTurn(r: int)
    ensures Cong(-r, P - r)
  {
    CongWitness(-r, P - r, -1);
  }

  lemma OppositeOnCurve(x: int, n: int, y: int)
    requires CurveEquation(x, y) && (n == x || n == -x)
    ensures CurveEquation(n, y)
  {
    hide *;
    CurveMeaning(x, y);
    CurveMeaning(n, y);
    if n == -x {
      assert n * n == x * x && n * y == -(x * y);
      var w := x * y;
      assert (-w) * (-w) == w * w;
    }
  }

  lemma ReducedPoint(h: P3, q: Point)
    requires q == Point(Residue(Value(h.X)), Residue(Value(h.Y))) && Value(h.Z) == 1
    requires Within(h.X, TIGHT) && Within(h.Y, TIGHT) && Within(h.Z, TIGHT) && Within(h.T, TIGHT)
    requires Cong(Value(h.T), Value(h.X) * Value(h.Y)) && CurveEquation(Value(h.X), Value(h.Y))
    ensures IsP3(h, q) && OnCurve(q)
  {
    hide Cong, Value, Within, Residue, CurveEquation;
    ZeroNotOne();
    var x, y := Value(h.X), Value(h.Y);
    CurveCong(x, y, q.x, q.y);
    OnCurveMeaning(q);
    ScaledMeaning(q, x, y, 1);
    ScaledProductOfMeaning(q, Value(h.T), 1);
    CongMul(x, q.x, y, q.y);
    CongTrans(Value(h.T), x * y, q.x * q.y);
  }

  lemma {:induction false} Decoded(s: seq<byte>, q: Point)
    requires |s| == 32 && OnCurve(q) && q.y == Residue(Le(s) % EXP255)
    requires q.x == 0 || q.x % 2 != Le(s) / EXP255
    ensures DecodesNegated(s, q)
  {
  }

  // ----- decoding undoes encoding, up to the sign -----

  lemma {:induction false} EncodedDecodable(s: seq<byte>, p: Point)
    requires Encodes(s, p) && OnCurve(p)
    ensures Le(s) % EXP255 == p.y && Le(s) / EXP255 == p.x % 2 && Decodable(Le(s) % EXP255)
  {
    hide CurveEquation, Le;
    OnCurveMeaning(p);
  }

  lemma DecodeOfEncode(s: seq<byte>, p: Point, q: Point)
    requires Fermat() && Encodes(s, p) && OnCurve(p) && DecodesNegated(s, q)
    ensures q == Negative(p)
  {
    hide Fermat, CurveEquation, Le, Decodable, Residue;
    OnCurveMeaning(p);
    OnCurveMeaning(q);
    EncodedDecodable(s, p);
    CongSelf(p.y, p.y);
    ResidueUnique(p.y, p.y);
    SameSquare(p.x, q.x, p.y);
    CongSelf(-p.x, -p.x);
    ParityDecides(p.x, q.x);
  }

  // Two points with the same y have opposite or equal x.
  lemma SameSquare(x: int, z: int, y: int)
    requires Fermat() && CurveEquation(x, y) && CurveEquation(z, y)
    ensures Cong(z, x) || Cong(z, -x)
  {
    hide *;
    RatioEquation(x, y);
    RatioEquation(z, y);
    DenominatorNonzero(y);
    var v, u := D * (y * y) + 1, y * y - 1;
    CongSym(v * (x * x), u);
    CongTrans(v * (z * z), u, v * (x * x));
    assert v * (z * z) == (z * z) * v && v * (x * x) == (x * x) * v;
    Cancel(z * z, x * x, v);
    CongDifference(z * z, x * x);
    SquareDifference(z, x);
    CongDifference(z, x);
    CongDifference(z, -x);
    assert z - -x == z + x;
    if !Cong(z - x, 0) && !Cong(z + x, 0) {
      NoZeroDivisors(z - x, z + x);
    }
  }

  lemma SquareDifference(z: int, x: int)
    ensures z * z - x * x == (z - x) * (z + x)
  {
  }

  lemma ParityDecides(x: int, z: int)
    requires 0 <= x < P && 0 <= z < P && (Cong(z, x) || Cong(z, -x))
    requires z == 0 || z % 2 != x % 2
    ensures z == Residue(-x)
  {
    hide *;
    if Cong(z, x) {
      CongUnique(z, x);
      assert x == 0;
    }
    CongSym(z, -x);
    ResidueUnique(-x, z);
  }

  // The 32 bytes determine the point they encode.
  lemma EncodingInjective(s: seq<byte>, p: Point, q: Point)
    requires Fermat() && Encodes(s, p) && Encodes(s, q) && OnCurve(p) && OnCurve(q)
    ensures p == q
  {
    hide *;
    OnCurveMeaning(p);
    OnCurveMeaning(q);
    EncodedDecodable(s, p);
    EncodedDecodable(s, q);
    SameSquare(p.x, q.x, p.y);
    SameParity(p.x, q.x);
  }

  lemma SameParity(x: int, z: int)
    requires 0 <= x < P && 0 <= z < P && (Cong(z, x) || Cong(z, -x)) && z % 2 == x % 2
    ensures z == x
  {
    hide Cong;
    if Cong(z, x) {
      CongUnique(z, x);
    } else if x == 0 {
      CongUnique(z, 0);
    } else {
      FullTurn(x);
      CongTrans(z, -x, P - x);
      CongUnique(z, P - x);
    }
  }
}
