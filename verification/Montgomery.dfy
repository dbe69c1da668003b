// The Montgomery ladder of section 5 of RFC 7748 on ratios x / z, and what it means on the Edwards curve: with
// x / z = (1 + y) / (1 - y) its two formulas are doubling and differential addition, so the ladder computes the
// coordinate of n P from the coordinate of P. Nothing here comes from the C code; key_exchange.c is proved against it.
module Montgomery {
  import opened Bytes
  import opened Congruence
  import opened EdwardsCurve
  import opened PointMultiples

  // ----- the ladder of section 5 of RFC 7748, without swaps -----

  // A projective x coordinate x / z.
  datatype Ratio = Ratio(x: int, z: int)

  ghost function DoubleRatio(p: Ratio): Ratio {
    var aa, bb := (p.x + p.z) * (p.x + p.z), (p.x - p.z) * (p.x - p.z);
    var e := aa - bb;
    Ratio(aa * bb, e * (aa + 121665 * e))
  }

  // p + q, where u is the x coordinate of their difference
  ghost function AddRatio(p: Ratio, q: Ratio, u: int): Ratio {
    var da, cb := (q.x - q.z) * (p.x + p.z), (q.x + q.z) * (p.x - p.z);
    Ratio((da + cb) * (da + cb), u * ((da - cb) * (da - cb)))
  }

  // n u and (n + 1) u, from the k low bits of n, top bit first.
  ghost function LadderPair(n: nat, k: nat, u: int): (Ratio, Ratio)
    decreases k
  {
    if k == 0 then (Ratio(1, 0), Ratio(u, 1))
    else
      var h := LadderPair(n / 2, k - 1, u);
      if n % 2 == 0 then (DoubleRatio(h.0), AddRatio(h.0, h.1, u))
      else (AddRatio(h.0, h.1, u), DoubleRatio(h.1))
  }

  // Where the two formulas compute doubles and differential sums, the ladder computes multiples.
  ghost predicate DifferentialLaws(rep: (nat, Ratio) -> bool, u: int) {
    && rep(0, Ratio(1, 0)) && rep(1, Ratio(u, 1))
    && forall n: nat, p: Ratio, q: Ratio :: rep(n, p) && rep(n + 1, q) ==>
         rep(2 * n, DoubleRatio(p)) && rep(2 * n + 1, AddRatio(p, q, u)) && rep(2 * n + 2, DoubleRatio(q))
  }

  lemma {:induction false} LadderMultiples(rep: (nat, Ratio) -> bool, n: nat, k: nat, u: int)
    requires DifferentialLaws(rep, u) && n < Exp2(k)
    ensures rep(n, LadderPair(n, k, u).0) && rep(n + 1, LadderPair(n, k, u).1)
    decreases k
  {
    hide DoubleRatio, AddRatio;
    if k > 0 {
      LadderMultiples(rep, n / 2, k - 1, u);
      var h, m := LadderPair(n / 2, k - 1, u), n / 2;
      assert rep(2 * m, DoubleRatio(h.0)) && rep(2 * m + 1, AddRatio(h.0, h.1, u)) && rep(2 * m + 2, DoubleRatio(h.1));
      assert n == 2 * m || n == 2 * m + 1;
    }
  }

  // The differential sum does not depend on the order.
  lemma AddSymmetric(p: Ratio, q: Ratio, u: int)
    ensures AddRatio(p, q, u) == AddRatio(q, p, u)
  {
    var a, b := (q.x - q.z) * (p.x + p.z), (q.x + q.z) * (p.x - p.z);
    assert (p.x - p.z) * (q.x + q.z) == b && (p.x + p.z) * (q.x - q.z) == a;
    assert (a - b) * (a - b) == (b - a) * (b - a);
  }

  // (y + 1) / (1 - y), the Montgomery coordinate of an Edwards y
  ghost function MontgomeryX(y: int): int {
    (y + 1) * Inv(1 - y)
  }

  // ----- the ratio of a point -----

  // x / z is (1 + y) / (1 - y), or 1 / 0 for y = 1: x + z and x - z are as 1 and y.
  ghost predicate Represents(p: Ratio, y: int) {
    RepresentsSteps(p, y, 4)
  }

  ghost predicate RepresentsSteps(p: Ratio, y: int, n: nat)
    decreases n, p, y
  {
    if n == 0 then !Cong(p.x + p.z, 0) && Cong(p.x - p.z, (p.x + p.z) * y) else RepresentsSteps(p, y, n - 1)
  }

  lemma RepresentsMeaning(p: Ratio, y: int)
    ensures Represents(p, y) <==> !Cong(p.x + p.z, 0) && Cong(p.x - p.z, (p.x + p.z) * y)
  {
    assert RepresentsSteps(p, y, 4) == RepresentsSteps(p, y, 3);
    assert RepresentsSteps(p, y, 3) == RepresentsSteps(p, y, 2);
    assert RepresentsSteps(p, y, 2) == RepresentsSteps(p, y, 1);
    assert RepresentsSteps(p, y, 1) == RepresentsSteps(p, y, 0);
  }

  // What differs by multiples of differences of congruent numbers is congruent.
  lemma Combine(a: int, b: int, c: int, l: int, r: int)
    requires Cong(l, r) && a - b == c * (l - r)
    ensures Cong(a, b)
  {
    hide *;
    CongDifference(l, r);
    CongTimes(l - r, 0, c);
    CongDifference(a, b);
  }

  lemma CombineTwo(a: int, b: int, c: int, l: int, r: int, c': int, l': int, r': int)
    requires Cong(l, r) && Cong(l', r') && a - b == c * (l - r) + c' * (l' - r')
    ensures Cong(a, b)
  {
    hide *;
    CongDifference(l, r);
    CongTimes(l - r, 0, c);
    CongDifference(l', r');
    CongTimes(l' - r', 0, c');
    CongAdd(c * (l - r), 0, c' * (l' - r'), 0);
    CongDifference(a, b);
  }

  // ----- doubling -----

  // y^2 = (1 + 121665 (1 - y^2)) (1 + x^2) on the curve; b is y^2 and c is x^2.
  lemma DoubleKey(d: int, b: int, c: int)
    requires Cong(121666 * d, -121665) && Cong(b - c, 1 + d * (b * c))
    ensures Cong((1 + 121665 * (1 - b)) * (1 + c), b)
  {
    hide *;
    var f := 1 + 121665 * (1 - b);
    assert f * (1 + c) == f + f * c;
    DoubleTerms(d, b, c, b * c);
    CombineTwo(f * (1 + c), b, -(b * c), 121666 * d, -121665, -121666, b - c, 1 + d * (b * c));
  }

  lemma DoubleTerms(d: int, b: int, c: int, w: int)
    requires w == b * c
    ensures (1 + 121665 * (1 - b)) * c == 121666 * c - 121665 * w
    ensures -w * (121666 * d + 121665) == -121666 * (d * w) - 121665 * w
  {
  }

  // With f as above, s = b + (1 - b) f and t = b - (1 - b) f, which are x + z and x - z up to a factor, the double has
  // y coordinate t / s; k is d x^2 y^2.
  lemma DoubleFraction(b: int, c: int, f: int, k: int, y: int)
    requires Fermat() && !Cong(1 - k, 0)
    requires Cong(f * (1 + c), b) && Cong(b - c, 1 + k) && Cong(y * (1 - k), b + c)
    ensures Cong(b - (1 - b) * f, (b + (1 - b) * f) * y)
  {
    hide *;
    var g := (1 - b) * f;
    var s, t := b + g, b - g;
    DoubleDifference(b, c, f, g, k);
    CombineTwo(t * (1 - k), s * (b + c), -2 * (1 - b), f * (1 + c), b, b - g, b - c, 1 + k);
    CongTimes(y * (1 - k), b + c, s);
    CongSym(s * (y * (1 - k)), s * (b + c));
    CongTrans(t * (1 - k), s * (b + c), s * (y * (1 - k)));
    assert s * (y * (1 - k)) == (s * y) * (1 - k);
    Cancel(t, s * y, 1 - k);
  }

  lemma DoubleDifference(b: int, c: int, f: int, g: int, k: int)
    requires g == (1 - b) * f
    ensures (b - g) * (1 - k) - (b + g) * (b + c)
            == (-2 * (1 - b)) * (f * (1 + c) - b) + (b - g) * ((b - c) - (1 + k))
  {
    var h := f * c;
    assert f * (1 + c) == f + h;
    assert g * c == (1 - b) * h by {
      assert ((1 - b) * f) * c == (1 - b) * (f * c);
    }
    assert (-2 * (1 - b)) * (f + h - b) == -2 * g - 2 * ((1 - b) * h) + 2 * ((1 - b) * b);
  }

  // And s is not zero.
  lemma DoubleNonzero(b: int, c: int, f: int, k: int)
    requires Fermat() && !Cong(1 - k, 0) && f == 1 + 121665 * (1 - b)
    requires Cong(f * (1 + c), b) && Cong(b - c, 1 + k)
    ensures !Cong(b + (1 - b) * f, 0)
  {
    hide *;
    var s := b + (1 - b) * f;
    if Cong(s, 0) {
      if Cong(b, 0) {
        SmallConstant();
        DoubleAtZero(b, f, s);
        CombineTwo(121666, 0, 243330 - 121665 * b, b, 0, 1, s, 0);
      } else {
        NoZeroDivisors(b, 1 - k);
        DoubleScaled(b, c, f, k, s);
        CombineTwo(b * (1 - k), s * (1 + c), -(1 - b), f * (1 + c), b, b, b - c, 1 + k);
        CongTimes(s, 0, 1 + c);
        CongTrans(b * (1 - k), s * (1 + c), 0);
      }
    }
  }

  lemma DoubleScaled(b: int, c: int, f: int, k: int, s: int)
    requires s == b + (1 - b) * f
    ensures b * (1 - k) - s * (1 + c) == -(1 - b) * (f * (1 + c) - b) + b * ((b - c) - (1 + k))
  {
    assert ((1 - b) * f) * (1 + c) == (1 - b) * (f * (1 + c));
  }

  lemma SmallConstant()
    ensures !Cong(121666, 0)
  {
    CongMeaning(121666, 0);
  }

  lemma DoubleAtZero(b: int, f: int, s: int)
    requires f == 1 + 121665 * (1 - b) && s == b + (1 - b) * f
    ensures 121666 - 0 == (243330 - 121665 * b) * (b - 0) + 1 * (s - 0)
  {
  }

  // A factor common to x + z and x - z does not matter.
  lemma RepresentsScaled(r: Ratio, w: int, s: int, t: int, y: int)
    requires Fermat() && !Cong(w, 0) && !Cong(s, 0) && Cong(t, s * y)
    requires Cong(r.x + r.z, w * s) && Cong(r.x - r.z, w * t)
    ensures Represents(r, y)
  {
    hide *;
    NoZeroDivisors(w, s);
    CongSym(r.x + r.z, w * s);
    NonzeroCong(w * s, r.x + r.z);
    CongTimes(t, s * y, w);
    assert w * (s * y) == (w * s) * y;
    CongTrans(r.x - r.z, w * t, (w * s) * y);
    CongTimes(w * s, r.x + r.z, y);
    CongTrans(r.x - r.z, (w * s) * y, (r.x + r.z) * y);
    RepresentsMeaning(r, y);
  }

  // The doubling formula doubles.
  lemma DoubleRepresents(p: Ratio, a: Point)
    requires Fermat() && OnCurve(a) && Represents(p, a.y)
    ensures Represents(DoubleRatio(p), Sum(a, a).y)
  {
    hide *;
    var s, b, c, k, y := p.x + p.z, a.y * a.y, a.x * a.x, Cross(a, a), Sum(a, a).y;
    var f := 1 + 121665 * (1 - b);
    RepresentsMeaning(p, a.y);
    Constants();
    OnCurveEquation(a);
    SquareEquation(a.x, a.y);
    CrossMeaning(a, a);
    ProductSquare(a.x, a.y);
    Complete(a, a);
    SumFractions(a, a);
    DoubleKey(D, b, c);
    DoubleFraction(b, c, f, k, y);
    DoubleNonzero(b, c, f, k);
    NoZeroDivisors(s, s);
    NoZeroDivisors(s * s, s * s);
    DoubleScale(p, a.y, b, f);
    RepresentsScaled(DoubleRatio(p), (s * s) * (s * s), b + (1 - b) * f, b - (1 - b) * f, y);
  }

  // The curve equation in terms of squares.
  lemma SquareEquation(x: int, y: int)
    requires CurveEquation(x, y)
    ensures Cong(y * y - x * x, 1 + D * ((y * y) * (x * x)))
  {
    hide *;
    CurveMeaning(x, y);
    ProductSquare(x, y);
  }

  lemma ProductSquare(x: int, y: int)
    ensures (x * y) * (x * y) == (y * y) * (x * x)
  {
  }

  lemma DoubleScale(p: Ratio, y: int, b: int, f: int)
    requires b == y * y && f == 1 + 121665 * (1 - b) && Cong(p.x - p.z, (p.x + p.z) * y)
    ensures var r, w := DoubleRatio(p), ((p.x + p.z) * (p.x + p.z)) * ((p.x + p.z) * (p.x + p.z));
            Cong(r.x + r.z, w * (b + (1 - b) * f)) && Cong(r.x - r.z, w * (b - (1 - b) * f))
  {
    hide *;
    var s, t := p.x + p.z, p.x - p.z;
    var aa, bb := s * s, t * t;
    var e, w := aa - bb, aa * aa;
    CongMul(t, s * y, t, s * y);
    assert (s * y) * (s * y) == aa * b by {
      ProductSquare(s, y);
      assert b * aa == aa * b;
    }
    DoubleScaleSquares(aa, bb, b, f);
    DoubleParts(p, aa, bb, e);
    SumAndDifference(DoubleRatio(p), w, b, (1 - b) * f);
  }

  lemma DoubleParts(p: Ratio, aa: int, bb: int, e: int)
    requires aa == (p.x + p.z) * (p.x + p.z) && bb == (p.x - p.z) * (p.x - p.z) && e == aa - bb
    ensures DoubleRatio(p).x == aa * bb && DoubleRatio(p).z == e * (aa + 121665 * e)
  {
  }

  lemma DoubleScaleSquares(aa: int, bb: int, b: int, f: int)
    requires Cong(bb, aa * b) && f == 1 + 121665 * (1 - b)
    ensures var e := aa - bb;
            Cong(aa * bb, (aa * aa) * b) && Cong(e * (aa + 121665 * e), (aa * aa) * ((1 - b) * f))
  {
    hide *;
    var e, e' := aa - bb, aa * (1 - b);
    CongTimes(bb, aa * b, aa);
    assert aa * (aa * b) == (aa * aa) * b;
    CongSelf(aa, aa);
    CongAdd(aa, aa, bb, aa * b);
    assert e' == aa - aa * b;
    CongTimes(e, e', 121665);
    CongAdd(aa, aa, 121665 * e, 121665 * e');
    CongMul(e, e', aa + 121665 * e, aa + 121665 * e');
    DoubleFactor(aa, 1 - b, f);
  }

  lemma DoubleFactor(aa: int, g: int, f: int)
    requires f == 1 + 121665 * g
    ensures (aa * g) * (aa + 121665 * (aa * g)) == (aa * aa) * (g * f)
  {
    var h := aa * g;
    assert aa + 121665 * h == aa * f;
    assert h * (aa * f) == (aa * aa) * (g * f);
  }

  lemma SumAndDifference(r: Ratio, w: int, m: int, n: int)
    requires Cong(r.x, w * m) && Cong(r.z, w * n)
    ensures Cong(r.x + r.z, w * (m + n)) && Cong(r.x - r.z, w * (m - n))
  {
    hide *;
    CongAdd(r.x, w * m, r.z, w * n);
    assert w * m + w * n == w * (m + n) && w * m - w * n == w * (m - n);
  }

  // ----- differential addition -----

  // 1 + d y^2 is never zero: -1 is a square, so d would be one.
  lemma NoPole(y: int)
    requires Fermat()
    ensures !Cong(1 + D * (y * y), 0)
  {
    hide *;
    var b := y * y;
    if Cong(1 + D * b, 0) {
      Constants();
      CombineTwo(ROOT * ROOT, D * b, 1, ROOT * ROOT, -1, -1, 1 + D * b, 0);
      if Cong(y, 0) {
        ZeroNotOne();
        CongTimes(y, 0, D * y);
        assert (D * y) * y == D * b;
        CombineTwo(1, 0, 1, 1 + D * b, 0, -1, D * b, 0);
      } else {
        var root := DivideSquare(ROOT, y);
        NoRootOfD(root);
      }
    }
  }

  // x^2 (1 + d y^2) = y^2 - 1 on the curve; two points multiplied.
  lemma SquaresProduct(d: int, c1: int, b1: int, c2: int, b2: int)
    requires Cong(b1 - c1, 1 + d * (b1 * c1)) && Cong(b2 - c2, 1 + d * (b2 * c2))
    ensures Cong((c1 * c2) * ((1 + d * b1) * (1 + d * b2)), (b1 - 1) * (b2 - 1))
  {
    hide *;
    SquareOfX(d, c1, b1);
    SquareOfX(d, c2, b2);
    CongMul(c1 * (1 + d * b1), b1 - 1, c2 * (1 + d * b2), b2 - 1);
    assert (c1 * (1 + d * b1)) * (c2 * (1 + d * b2)) == (c1 * c2) * ((1 + d * b1) * (1 + d * b2)) by {
      Regroup(c1, 1 + d * b1, c2, 1 + d * b2);
    }
  }

  lemma SquareOfX(d: int, c: int, b: int)
    requires Cong(b - c, 1 + d * (b * c))
    ensures Cong(c * (1 + d * b), b - 1)
  {
    hide *;
    assert c * (1 + d * b) == c + d * (b * c) by {
      assert c * (d * b) == d * (b * c);
    }
    Combine(c * (1 + d * b), b - 1, -1, b - c, 1 + d * (b * c));
  }

  // With v = y1 y2 and m = y1^2 + y2^2, both sides are a square form times (y1 + y2)^2.
  lemma SquareForm(d: int, m: int, v: int)
    ensures var w, dw := v * v, d * (v * v);
            (1 + 2 * v + w) * (1 + d * m + d * dw) - (1 + w - m) * (1 - 2 * (d * v) + d * dw)
            == ((1 + d) * (1 + dw)) * (m + 2 * v)
  {
    var w, dv := v * v, d * v;
    var dw := d * w;
    var ew := d * dw;
    assert w * dv == v * dw by {
      assert (v * v) * dv == v * (v * dv) && v * dv == d * (v * v);
    }
    FormWith(d, v, w, dv, dw, ew);
    FormWithout(d, v, w, dv, dw, ew);
    FormSplit(d, m, v, 1 + 2 * v + w, 1 + ew, 1 + w, 1 - 2 * dv + ew, (1 + d) * (1 + dw));
  }

  lemma FormWith(d: int, v: int, w: int, dv: int, dw: int, ew: int)
    requires dv == d * v && dw == d * w && ew == d * dw
    ensures d * (1 + 2 * v + w) + (1 - 2 * dv + ew) == (1 + d) * (1 + dw)
  {
    assert d * (1 + 2 * v + w) == d + 2 * dv + dw;
    assert (1 + d) * (1 + dw) == 1 + d + dw + ew;
  }

  lemma FormWithout(d: int, v: int, w: int, dv: int, dw: int, ew: int)
    requires dv == d * v && ew == d * dw && w * dv == v * dw
    ensures (1 + 2 * v + w) * (1 + ew) - (1 + w) * (1 - 2 * dv + ew) == 2 * (v * ((1 + d) * (1 + dw)))
  {
    assert (1 + w + 2 * v) * (1 + ew) == (1 + w) * (1 + ew) + 2 * (v * (1 + ew));
    assert (1 + w) * ((1 + ew) - 2 * dv) == (1 + w) * (1 + ew) - 2 * (dv + w * dv);
    assert (1 + d) * (1 + dw) == (1 + ew) + d + dw;
    assert v * ((1 + ew) + d + dw) == v * (1 + ew) + dv + v * dw;
  }

  lemma FormSplit(d: int, m: int, v: int, a: int, b: int, a': int, b': int, c: int)
    requires d * a + b' == c && a * b - a' * b' == 2 * (v * c)
    ensures a * (b + d * m) - (a' - m) * b' == c * (m + 2 * v)
  {
    assert a * (b + d * m) == a * b + m * (d * a);
    assert (a' - m) * b' == a' * b' - m * b';
    assert m * (d * a) + m * b' == m * c;
  }

  // (1 + v)^2 - (x - d x v)^2 is the form times (y1 + y2)^2, up to (1 + d y1^2) (1 + d y2^2); b1 and b2 are y1^2 and
  // y2^2, and x is x1 x2.
  lemma NumeratorForm(d: int, b1: int, b2: int, x: int, v: int)
    requires b1 * b2 == v * v
    requires Cong((x * x) * ((1 + d * b1) * (1 + d * b2)), (b1 - 1) * (b2 - 1))
    ensures Cong(((1 + v) * (1 + v) - (x - d * (x * v)) * (x - d * (x * v))) * ((1 + d * b1) * (1 + d * b2)),
                 ((1 + d) * (1 + d * (v * v))) * (b1 + b2 + 2 * v))
  {
    hide *;
    var m, w, e := b1 + b2, v * v, (1 + d * b1) * (1 + d * b2);
    var g := 1 - 2 * (d * v) + d * (d * w);
    var n := (1 + v) * (1 + v) - (x - d * (x * v)) * (x - d * (x * v));
    SquareForm(d, m, v);
    FactorsExpand(d, b1, b2, w);
    NumeratorExpand(d, x, v, e, g);
    var l, r := (x * x) * e, (b1 - 1) * (b2 - 1);
    assert -g * (l - r) == -(l * g) + r * g;
    Combine(n * e, ((1 + d) * (1 + d * w)) * (m + 2 * v), -g, l, r);
  }

  lemma FactorsExpand(d: int, b1: int, b2: int, w: int)
    requires b1 * b2 == w
    ensures (1 + d * b1) * (1 + d * b2) == 1 + d * (b1 + b2) + d * (d * w)
    ensures (b1 - 1) * (b2 - 1) == 1 + w - (b1 + b2)
  {
    assert (d * b1) * (d * b2) == d * (d * (b1 * b2));
  }

  lemma NumeratorExpand(d: int, x: int, v: int, e: int, g: int)
    requires g == 1 - 2 * (d * v) + d * (d * (v * v))
    ensures ((1 + v) * (1 + v) - (x - d * (x * v)) * (x - d * (x * v))) * e
            == (1 + 2 * v + v * v) * e - ((x * x) * e) * g
  {
    ScaledSquare(d, x, v, g);
    PlusOneSquare(v);
    SpreadDifference((1 + v) * (1 + v), x * x, g, e);
  }

  lemma PlusOneSquare(v: int)
    ensures (1 + v) * (1 + v) == 1 + 2 * v + v * v
  {
  }

  lemma ScaledSquare(d: int, x: int, v: int, g: int)
    requires g == 1 - 2 * (d * v) + d * (d * (v * v))
    ensures (x - d * (x * v)) * (x - d * (x * v)) == (x * x) * g
  {
    var h := 1 - d * v;
    DenominatorSquare(d, v);
    PullOut(d, x, v);
    Regroup(x, h, x, h);
  }

  lemma PullOut(d: int, x: int, v: int)
    ensures x - d * (x * v) == x * (1 - d * v)
  {
    assert x * (d * v) == d * (x * v);
  }

  lemma DenominatorSquare(d: int, v: int)
    ensures (1 - d * v) * (1 - d * v) == 1 - 2 * (d * v) + d * (d * (v * v))
  {
    assert (d * v) * (d * v) == d * (d * (v * v));
  }

  lemma SpreadDifference(f: int, x: int, g: int, e: int)
    ensures (f - x * g) * e == f * e - (x * e) * g
  {
  }

  // (1 + y5) (1 + y1) and (1 - y5) (1 - y1) for the y coordinates of the sum and of the difference.
  lemma SumDifference(y5: int, y1: int, k: int, v: int, x: int)
    requires Cong(y5 * (1 - k), v + x) && Cong(y1 * (1 + k), v - x)
    ensures Cong(((1 + y5) * (1 + y1)) * ((1 - k) * (1 + k)), (1 + v) * (1 + v) - (x - k) * (x - k))
    ensures Cong(((1 - y5) * (1 - y1)) * ((1 - k) * (1 + k)), (1 - v) * (1 - v) - (x + k) * (x + k))
  {
    hide *;
    CongSelf(1 - k, 1 - k);
    CongSelf(1 + k, 1 + k);
    CongAdd(1 - k, 1 - k, y5 * (1 - k), v + x);
    CongAdd(1 + k, 1 + k, y1 * (1 + k), v - x);
    var a, b, c, e := 1 - k + (v + x), 1 + k + (v - x), 1 - k - (v + x), 1 + k - (v - x);
    CongMul(1 - k + y5 * (1 - k), a, 1 + k + y1 * (1 + k), b);
    CongMul(1 - k - y5 * (1 - k), c, 1 + k - y1 * (1 + k), e);
    OnePlus(y5, 1 - k);
    OnePlus(y1, 1 + k);
    Regroup(1 + y5, 1 - k, 1 + y1, 1 + k);
    Regroup(1 - y5, 1 - k, 1 - y1, 1 + k);
    Squares(1 + v, x - k);
    Squares(1 - v, x + k);
    assert a == (1 + v) + (x - k) && b == (1 + v) - (x - k);
    assert c == (1 - v) - (x + k) && e == (1 - v) + (x + k);
  }

  lemma OnePlus(y: int, m: int)
    ensures m + y * m == (1 + y) * m && m - y * m == (1 - y) * m
  {
  }

  lemma Squares(a: int, b: int)
    ensures (a + b) * (a - b) == a * a - b * b == (a - b) * (a + b)
  {
  }

  // The cross ratio: with q and r the squares of y1 + y2 and of y1 - y2, the sum and the difference of two points
  // satisfy q (1 - y5) (1 - y1) = r (1 + y5) (1 + y1).
  lemma CrossRatio(d: int, b1: int, b2: int, x: int, v: int, k: int, y5: int, y1: int)
    requires Fermat() && b1 * b2 == v * v && k == d * (x * v)
    requires !Cong(1 + d * b1, 0) && !Cong(1 + d * b2, 0) && !Cong(1 - k, 0) && !Cong(1 + k, 0)
    requires Cong((x * x) * ((1 + d * b1) * (1 + d * b2)), (b1 - 1) * (b2 - 1))
    requires Cong(y5 * (1 - k), v + x) && Cong(y1 * (1 + k), v - x)
    ensures Cong((b1 + b2 + 2 * v) * ((1 - y5) * (1 - y1)), (b1 + b2 - 2 * v) * ((1 + y5) * (1 + y1)))
  {
    hide *;
    var q, r, e := b1 + b2 + 2 * v, b1 + b2 - 2 * v, (1 + d * b1) * (1 + d * b2);
    var c, kk := (1 + d) * (1 + d * (v * v)), (1 - k) * (1 + k);
    var plus := (1 + v) * (1 + v) - (x - k) * (x - k);
    var minus := (1 - v) * (1 - v) - (x + k) * (x + k);
    NumeratorForm(d, b1, b2, x, v);
    NegatedForm(d, x, v);
    NumeratorForm(d, b1, b2, x, -v);
    NoZeroDivisors(1 + d * b1, 1 + d * b2);
    NoZeroDivisors(1 - k, 1 + k);
    ExchangeForms(q, r, e, c, plus, minus);
    SumDifference(y5, y1, k, v, x);
    ExchangeProducts(q, r, kk, (1 - y5) * (1 - y1), (1 + y5) * (1 + y1), minus, plus);
  }

  lemma NegatedForm(d: int, x: int, v: int)
    ensures (-v) * (-v) == v * v && d * (x * -v) == -(d * (x * v))
  {
    assert x * -v == -(x * v);
  }

  lemma ExchangeForms(q: int, r: int, e: int, c: int, plus: int, minus: int)
    requires Fermat() && !Cong(e, 0) && Cong(plus * e, c * q) && Cong(minus * e, c * r)
    ensures Cong(q * minus, r * plus)
  {
    hide *;
    CongTimes(minus * e, c * r, q);
    CongTimes(plus * e, c * q, r);
    assert q * (c * r) == r * (c * q);
    assert q * (minus * e) == (q * minus) * e && r * (plus * e) == (r * plus) * e;
    CongSym(r * (plus * e), r * (c * q));
    CongTrans((q * minus) * e, q * (c * r), (r * plus) * e);
    Cancel(q * minus, r * plus, e);
  }

  lemma ExchangeProducts(q: int, r: int, kk: int, m: int, p: int, minus: int, plus: int)
    requires Fermat() && !Cong(kk, 0) && Cong(m * kk, minus) && Cong(p * kk, plus) && Cong(q * minus, r * plus)
    ensures Cong(q * m, r * p)
  {
    hide *;
    CongTimes(m * kk, minus, q);
    CongTimes(p * kk, plus, r);
    assert q * (m * kk) == (q * m) * kk && r * (p * kk) == (r * p) * kk;
    CongSym((r * p) * kk, r * plus);
    CongTrans((q * m) * kk, q * minus, r * plus);
    CongTrans((q * m) * kk, r * plus, (r * p) * kk);
    Cancel(q * m, r * p, kk);
  }

  // The affine step: u (1 - y1) = 1 + y1 gives the y coordinate of the sum as (q - u r) / (q + u r).
  lemma AddFraction(q: int, r: int, u: int, y5: int, y1: int)
    requires Fermat() && !Cong(1 - y1, 0) && Cong(u * (1 - y1), 1 + y1)
    requires Cong(q * ((1 - y5) * (1 - y1)), r * ((1 + y5) * (1 + y1)))
    ensures Cong(q - u * r, (q + u * r) * y5)
  {
    hide *;
    CongTimes(u * (1 - y1), 1 + y1, r * (1 + y5));
    MoveFactors(q, r, u, 1 + y5, 1 - y5, 1 + y1, 1 - y1);
    CongSym(((u * r) * (1 + y5)) * (1 - y1), r * ((1 + y5) * (1 + y1)));
    CongTrans((q * (1 - y5)) * (1 - y1), r * ((1 + y5) * (1 + y1)), ((u * r) * (1 + y5)) * (1 - y1));
    Cancel(q * (1 - y5), (u * r) * (1 + y5), 1 - y1);
    var w := u * r;
    assert q * (1 - y5) - w * (1 + y5) == (q - w) - (q + w) * y5;
    Combine(q - w, (q + w) * y5, 1, q * (1 - y5), w * (1 + y5));
  }

  lemma MoveFactors(q: int, r: int, u: int, p5: int, m5: int, p1: int, m1: int)
    ensures (r * p5) * p1 == r * (p5 * p1) && q * (m5 * m1) == (q * m5) * m1
    ensures (r * p5) * (u * m1) == ((u * r) * p5) * m1
  {
  }

  lemma HalfZero(a: int)
    requires Fermat() && Cong(2 * a, 0)
    ensures Cong(a, 0)
  {
    hide *;
    ZeroNotOne();
    ZeroFactor(2, a);
  }

  // The two squares vanish together only where both points have y = 0, and then the difference has y = 1 or y = -1.
  lemma AddNonzero(y: int, y': int, u: int, x: int, y1: int, y5: int)
    requires Fermat() && !Cong(u, 0) && !Cong(1 - y1, 0) && !Cong(1 + y1, 0)
    requires Cong(y, 0) && Cong(y', 0) ==> Cong(y1 * y1, 1)
    requires var q, r := (y + y') * (y + y'), (y - y') * (y - y');
             Cong(q - u * r, (q + u * r) * y5)
    ensures !Cong((y + y') * (y + y') + u * ((y - y') * (y - y')), 0)
  {
    hide *;
    var q, r := (y + y') * (y + y'), (y - y') * (y - y');
    if Cong(q + u * r, 0) {
      CongTimes(q + u * r, 0, y5);
      CongTrans(q - u * r, (q + u * r) * y5, 0);
      CongAdd(q + u * r, 0, q - u * r, 0);
      HalfZero(q);
      HalfZero(u * r);
      ZeroFactor(u, r);
      ZeroFactor(y + y', y + y');
      ZeroFactor(y - y', y - y');
      CongAdd(y + y', 0, y - y', 0);
      HalfZero(y);
      HalfZero(y');
      NoZeroDivisors(1 - y1, 1 + y1);
      assert (1 - y1) * (1 + y1) == 1 - y1 * y1;
      Combine(1 - y1 * y1, 0, -1, y1 * y1, 1);
    }
  }

  lemma OrderFour(d: int, x: int, y: int, x': int, y': int, k: int, y1: int)
    requires Cong(y, 0) && Cong(y', 0)
    requires Cong(y * y - x * x, 1 + d * ((y * y) * (x * x)))
    requires Cong(y' * y' - x' * x', 1 + d * ((y' * y') * (x' * x')))
    requires k == d * ((x * x') * (y * y')) && Cong(y1 * (1 + k), y * y' - x * x')
    ensures Cong(y1 * y1, 1)
  {
    hide *;
    MinusOne(d, x, y);
    MinusOne(d, x', y');
    CongMul(x * x, -1, x' * x', -1);
    CongTimes(y, 0, y');
    var v, w := y * y', x * x';
    Regroup(x, x, x', x');
    assert y1 * (1 + k) == y1 + (y1 * (d * w)) * v by {
      assert y1 * (d * (w * v)) == (y1 * (d * w)) * v;
    }
    CombineTwo(y1, -w, 1, y1 * (1 + k), v - w, 1 - y1 * (d * w), v, 0);
    CongMul(y1, -w, y1, -w);
    assert -w * -w == w * w;
    CongTrans(y1 * y1, w * w, 1);
  }

  lemma MinusOne(d: int, x: int, y: int)
    requires Cong(y, 0) && Cong(y * y - x * x, 1 + d * ((y * y) * (x * x)))
    ensures Cong(x * x, -1)
  {
    hide *;
    var b, c := y * y, x * x;
    CongTimes(y, 0, y);
    assert d * (b * c) == (d * c) * b;
    CombineTwo(c, -1, -1, b - c, 1 + d * (b * c), 1 - d * c, b, 0);
  }

  // The difference of two points: y (1 + k) = y1 y2 - x1 x2.
  lemma DifferenceFraction(a: Point, b: Point)
    requires Fermat() && OnCurve(a) && OnCurve(b)
    ensures Cong(Sum(b, Negative(a)).y * (1 + Cross(a, b)), a.y * b.y - a.x * b.x)
  {
    hide *;
    var n, y, k := Negative(a), Sum(b, Negative(a)).y, Cross(a, b);
    NegativeOnCurve(a);
    SumFractions(b, n);
    NegativeIs(a);
    CrossMeaning(a, b);
    CrossMeaning(b, n);
    CrossNegated(D, a.x, a.y, b.x, b.y, n.x);
    CongTimes(n.x, -a.x, b.x);
    CongSelf(b.y * a.y, b.y * a.y);
    CongAdd(b.y * a.y, b.y * a.y, b.x * n.x, b.x * -a.x);
    assert b.x * -a.x == -(a.x * b.x);
    CongTrans(y * (1 - Cross(b, n)), b.y * n.y + b.x * n.x, a.y * b.y - a.x * b.x);
    var k' := Cross(b, n);
    assert y * (1 + k) - y * (1 - k') == y * (k' - -k);
    CombineTwo(y * (1 + k), a.y * b.y - a.x * b.x, 1, y * (1 - k'), a.y * b.y - a.x * b.x, y, k', -k);
  }

  lemma CrossNegated(d: int, x: int, y: int, x': int, y': int, n: int)
    requires Cong(n, -x)
    ensures Cong(d * ((x' * y') * (n * y)), -(d * ((x * y) * (x' * y'))))
  {
    hide *;
    var e := d * ((x' * y') * y);
    CongTimes(n, -x, e);
    assert d * ((x' * y') * (n * y)) == e * n;
    assert d * ((x * y) * (x' * y')) == e * x;
    assert e * -x == -(e * x);
  }

  // u is the coordinate of the point with y coordinate y, which is neither neutral nor of order two.
  ghost predicate Affine(u: int, y: int) {
    AffineSteps(u, y, 4)
  }

  ghost predicate AffineSteps(u: int, y: int, n: nat)
    decreases n, u, y
  {
    if n == 0 then !Cong(u, 0) && !Cong(1 - y, 0) && Cong(u * (1 - y), 1 + y) else AffineSteps(u, y, n - 1)
  }

  lemma AffineMeaning(u: int, y: int)
    ensures Affine(u, y) <==> !Cong(u, 0) && !Cong(1 - y, 0) && Cong(u * (1 - y), 1 + y)
  {
    assert AffineSteps(u, y, 4) == AffineSteps(u, y, 3);
    assert AffineSteps(u, y, 3) == AffineSteps(u, y, 2);
    assert AffineSteps(u, y, 2) == AffineSteps(u, y, 1);
    assert AffineSteps(u, y, 1) == AffineSteps(u, y, 0);
  }

  // The differential addition adds, where u is the coordinate of the difference.
  lemma AddRepresents(p: Ratio, q: Ratio, u: int, a: Point, b: Point)
    requires Fermat() && OnCurve(a) && OnCurve(b) && Represents(p, a.y) && Represents(q, b.y)
    requires Affine(u, Sum(b, Negative(a)).y)
    ensures Represents(AddRatio(p, q, u), Sum(a, b).y)
  {
    hide *;
    var y1, y5 := Sum(b, Negative(a)).y, Sum(a, b).y;
    var s, t := (a.y + b.y) * (a.y + b.y), (a.y - b.y) * (a.y - b.y);
    var w := (p.x + p.z) * (q.x + q.z);
    AffineMeaning(u, y1);
    AddOnCurve(a, b, u);
    RepresentsMeaning(p, a.y);
    RepresentsMeaning(q, b.y);
    NoZeroDivisors(p.x + p.z, q.x + q.z);
    NoZeroDivisors(w, w);
    AddScale(p, q, u, a.y, b.y);
    RepresentsScaled(AddRatio(p, q, u), w * w, s + u * t, s - u * t, y5);
  }

  lemma AddOnCurve(a: Point, b: Point, u: int)
    requires Fermat() && OnCurve(a) && OnCurve(b) && Affine(u, Sum(b, Negative(a)).y)
    ensures var s, t := (a.y + b.y) * (a.y + b.y), (a.y - b.y) * (a.y - b.y);
            !Cong(s + u * t, 0) && Cong(s - u * t, (s + u * t) * Sum(a, b).y)
  {
    hide *;
    var y1, y5 := Sum(b, Negative(a)).y, Sum(a, b).y;
    var s, t := (a.y + b.y) * (a.y + b.y), (a.y - b.y) * (a.y - b.y);
    AffineMeaning(u, y1);
    OnCurveEquation(a);
    SquareEquation(a.x, a.y);
    OnCurveEquation(b);
    SquareEquation(b.x, b.y);
    CrossMeaning(a, b);
    Regroup(a.x, a.y, b.x, b.y);
    DifferenceFraction(a, b);
    AddCrossRatio(a, b);
    AddFraction(s, t, u, y5, y1);
    NoZeroDivisors(u, 1 - y1);
    NonzeroCong(u * (1 - y1), 1 + y1);
    if Cong(a.y, 0) && Cong(b.y, 0) {
      OrderFour(D, a.x, a.y, b.x, b.y, Cross(a, b), y1);
    }
    AddNonzero(a.y, b.y, u, a.x, y1, y5);
  }

  lemma AddCrossRatio(a: Point, b: Point)
    requires Fermat() && OnCurve(a) && OnCurve(b)
    ensures var y1, y5 := Sum(b, Negative(a)).y, Sum(a, b).y;
            var s, t := (a.y + b.y) * (a.y + b.y), (a.y - b.y) * (a.y - b.y);
            Cong(s * ((1 - y5) * (1 - y1)), t * ((1 + y5) * (1 + y1)))
  {
    hide *;
    var y1, y5 := Sum(b, Negative(a)).y, Sum(a, b).y;
    var b1, b2, x, v := a.y * a.y, b.y * b.y, a.x * b.x, a.y * b.y;
    OnCurveEquation(a);
    SquareEquation(a.x, a.y);
    OnCurveEquation(b);
    SquareEquation(b.x, b.y);
    CrossMeaning(a, b);
    Regroup(a.x, a.y, b.x, b.y);
    DifferenceFraction(a, b);
    SumFractions(a, b);
    Complete(a, b);
    NoPole(a.y);
    NoPole(b.y);
    SquaresProduct(D, a.x * a.x, b1, b.x * b.x, b2);
    Regroup(a.x, a.x, b.x, b.x);
    Regroup(a.y, a.y, b.y, b.y);
    CrossRatio(D, b1, b2, x, v, Cross(a, b), y5, y1);
    BinomialSquare(a.y, b.y);
    BinomialSquare(a.y, -b.y);
    assert a.y + -b.y == a.y - b.y && -b.y * -b.y == b2 && a.y * -b.y == -v;
  }

  lemma AddScale(p: Ratio, q: Ratio, u: int, y: int, y': int)
    requires Cong(p.x - p.z, (p.x + p.z) * y) && Cong(q.x - q.z, (q.x + q.z) * y')
    ensures var r, w := AddRatio(p, q, u), (p.x + p.z) * (q.x + q.z);
            var s, t := (y + y') * (y + y'), (y - y') * (y - y');
            Cong(r.x + r.z, (w * w) * (s + u * t)) && Cong(r.x - r.z, (w * w) * (s - u * t))
  {
    hide *;
    var s1, s2 := p.x + p.z, q.x + q.z;
    var da, cb, w := (q.x - q.z) * s1, s2 * (p.x - p.z), s1 * s2;
    CongTimes(q.x - q.z, s2 * y', s1);
    CongTimes(p.x - p.z, s1 * y, s2);
    AddTerms(s1, s2, y, y');
    CongAdd(da, w * y', cb, w * y);
    CongMul(da + cb, w * y' + w * y, da + cb, w * y' + w * y);
    CongMul(da - cb, w * y' - w * y, da - cb, w * y' - w * y);
    CongTimes((da - cb) * (da - cb), (w * w) * ((y - y') * (y - y')), u);
    AddParts(p, q, u, da, cb);
    var t := (y - y') * (y - y');
    assert u * ((w * w) * t) == (w * w) * (u * t);
    SumAndDifference(AddRatio(p, q, u), w * w, (y + y') * (y + y'), u * t);
  }

  lemma AddTerms(s1: int, s2: int, y: int, y': int)
    ensures var w := s1 * s2;
            && (s2 * y') * s1 == w * y' && s2 * (s1 * y) == w * y
            && (w * y' + w * y) * (w * y' + w * y) == (w * w) * ((y + y') * (y + y'))
            && (w * y' - w * y) * (w * y' - w * y) == (w * w) * ((y - y') * (y - y'))
  {
    var w := s1 * s2;
    assert w * y' + w * y == w * (y + y') && w * y' - w * y == w * (y' - y);
    Regroup(w, y + y', w, y + y');
    Regroup(w, y' - y, w, y' - y);
    assert (y' - y) * (y' - y) == (y - y') * (y - y');
  }

  lemma AddParts(p: Ratio, q: Ratio, u: int, da: int, cb: int)
    requires da == (q.x - q.z) * (p.x + p.z) && cb == (q.x + q.z) * (p.x - p.z)
    ensures AddRatio(p, q, u) == Ratio((da + cb) * (da + cb), u * ((da - cb) * (da - cb)))
  {
  }

  // ----- the ladder on the curve -----

  // Away from the points of order one and two, the laws the ladder needs hold of the multiples of a point.
  lemma {:induction false} CurveLaws(a: Point, u: int)
    requires CurveFacts() && OnCurve(a) && Affine(u, a.y)
    ensures DifferentialLaws((n: nat, p: Ratio) => Represents(p, Multiple(n, a).y), u)
  {
    hide *;
    var rep := (n: nat, p: Ratio) => Represents(p, Multiple(n, a).y);
    StartRepresents(a, u);
    forall n: nat, p: Ratio, q: Ratio | rep(n, p) && rep(n + 1, q)
      ensures rep(2 * n, DoubleRatio(p)) && rep(2 * n + 1, AddRatio(p, q, u)) && rep(2 * n + 2, DoubleRatio(q))
    {
      LawsAt(a, u, n, p, q);
    }
    LawsFrom(rep, u);
  }

  lemma LawsFrom(rep: (nat, Ratio) -> bool, u: int)
    requires rep(0, Ratio(1, 0)) && rep(1, Ratio(u, 1))
    requires forall n: nat, p: Ratio, q: Ratio :: rep(n, p) && rep(n + 1, q) ==>
               rep(2 * n, DoubleRatio(p)) && rep(2 * n + 1, AddRatio(p, q, u)) && rep(2 * n + 2, DoubleRatio(q))
    ensures DifferentialLaws(rep, u)
  {
    hide DoubleRatio, AddRatio;
  }

  lemma LawsAt(a: Point, u: int, n: nat, p: Ratio, q: Ratio)
    requires CurveFacts() && OnCurve(a) && Affine(u, a.y)
    requires Represents(p, Multiple(n, a).y) && Represents(q, Multiple(n + 1, a).y)
    ensures Represents(DoubleRatio(p), Multiple(2 * n, a).y)
    ensures Represents(AddRatio(p, q, u), Multiple(2 * n + 1, a).y)
    ensures Represents(DoubleRatio(q), Multiple(2 * n + 2, a).y)
  {
    hide *;
    FactsOfCurve();
    var b, c := Multiple(n, a), Multiple(n + 1, a);
    MultipleOnCurve(n, a);
    MultipleOnCurve(n + 1, a);
    MultipleAdd(n, n, a);
    MultipleAdd(n, n + 1, a);
    MultipleAdd(n + 1, n + 1, a);
    MultipleNegative(n, a);
    var minus: int := -1 * n;
    MultipleAdd(n + 1, minus, a);
    MultipleOne(a);
    assert n + 1 + minus == 1 && n + (n + 1) == 2 * n + 1 && n + n == 2 * n && n + 1 + (n + 1) == 2 * n + 2;
    DoubleRepresents(p, b);
    AddRepresents(p, q, u, b, c);
    DoubleRepresents(q, c);
  }

  // 1 / 0 stands for the neutral element and u / 1 for the point itself.
  lemma {:induction false} StartRepresents(a: Point, u: int)
    requires CurveFacts() && OnCurve(a) && Affine(u, a.y)
    ensures Represents(Ratio(1, 0), Multiple(0, a).y) && Represents(Ratio(u, 1), Multiple(1, a).y)
  {
    hide *;
    FactsOfCurve();
    MultipleOne(a);
    MultipleZero(a);
    RepresentsMeaning(Ratio(1, 0), 1);
    ZeroNotOne();
    CongSelf(1 - 0, (1 + 0) * 1);
    RepresentsMeaning(Ratio(u, 1), a.y);
    AffineMeaning(u, a.y);
    var y := a.y;
    UnitRatio(u, y);
    Combine(u - 1, (u + 1) * y, 1, u * (1 - y), 1 + y);
    if Cong(u + 1, 0) {
      CongTimes(u + 1, 0, 1 - y);
      CombineTwo(2, 0, 1, (u + 1) * (1 - y), 0, -1, u * (1 - y), 1 + y);
    }
  }

  lemma {:induction false} MultipleZero(a: Point)
    ensures Multiple(0, a).y == 1
  {
  }

  lemma UnitRatio(u: int, y: int)
    ensures (u - 1) - (u + 1) * y == u * (1 - y) - (1 + y)
    ensures 2 == (u + 1) * (1 - y) - (u * (1 - y) - (1 + y))
  {
  }

  // What a ratio that represents y is once divided, also for y = 1, where both sides are zero.
  lemma RatioIsMontgomery(p: Ratio, y: int)
    requires Fermat() && Represents(p, y)
    ensures Cong(p.x * Inv(p.z), MontgomeryX(y))
  {
    hide *;
    RepresentsMeaning(p, y);
    var s := p.x + p.z;
    assert (p.x - p.z) - s * y == p.x * (1 - y) - p.z * (1 + y) by {
      assert s * y == p.x * y + p.z * y;
    }
    Combine(p.x * (1 - y), p.z * (1 + y), 1, p.x - p.z, s * y);
    assert s * (1 - y) == s - s * y;
    Combine(s * (1 - y), 2 * p.z, 1, p.x - p.z, s * y);
    MontgomeryIs(y);
    if Cong(p.z, 0) {
      CongTimes(p.z, 0, 2);
      CongTrans(s * (1 - y), 2 * p.z, 0);
      ZeroFactor(s, 1 - y);
      DivideByZero(p.x, p.z);
      DivideByZero(y + 1, 1 - y);
      CongSym((y + 1) * Inv(1 - y), 0);
      CongTrans(p.x * Inv(p.z), 0, (y + 1) * Inv(1 - y));
    } else {
      if Cong(1 - y, 0) {
        CongTimes(1 - y, 0, s);
        CongSym(s * (1 - y), 2 * p.z);
        CongTrans(2 * p.z, s * (1 - y), 0);
        HalfZero(p.z);
      }
      EqualQuotients(p.x, p.z, y + 1, 1 - y);
    }
  }

  lemma MontgomeryIs(y: int)
    ensures MontgomeryX(y) == (y + 1) * Inv(1 - y)
  {
    hide Inv;
  }

  // The inverse the code computes of zero is zero.
  lemma DivideByZero(n: int, a: int)
    requires Cong(a, 0)
    ensures Cong(n * Inv(a), 0)
  {
    hide Cong, Pow;
    PowOfZero(a, P - 2);
    CongTimes(Pow(a, P - 2), 0, n);
  }

  lemma EqualQuotients(n: int, a: int, m: int, b: int)
    requires Fermat() && !Cong(a, 0) && !Cong(b, 0) && Cong(n * b, a * m)
    ensures Cong(n * Inv(a), m * Inv(b))
  {
    hide *;
    var f, g := n * Inv(a), m * Inv(b);
    Quotient(n, a);
    Quotient(m, b);
    NoZeroDivisors(a, b);
    CongTimes(f * a, n, b);
    CongTimes(g * b, m, a);
    assert (f * a) * b == f * (a * b) && a * (g * b) == g * (a * b);
    CongTrans(f * (a * b), n * b, a * m);
    CongSym(g * (a * b), a * m);
    CongTrans(f * (a * b), a * m, g * (a * b));
    Cancel(f, g, a * b);
  }

  // ----- the points of order one and two, where u is zero -----

  ghost predicate Flat(p: Point) {
    OnCurve(p) && Cong(p.y * p.y, 1)
  }

  lemma FlatX(p: Point)
    requires Fermat() && Flat(p)
    ensures Cong(p.x, 0)
  {
    hide OnCurve, Fermat, Cong;
    Constants();
    OnCurveEquation(p);
    SquareEquation(p.x, p.y);
    var b, c := p.y * p.y, p.x * p.x;
    FlatEquation(D, b, c);
    if !Cong(c, 0) {
      ZeroNotOne();
      ZeroFactor(c, 1 + D);
      CongTimes(1 + D, 0, 121666);
      CombineTwo(1, 0, 1, 121666 * (1 + D), 0, -1, 121666 * D, -121665);
    }
    ZeroFactor(p.x, p.x);
  }

  lemma FlatEquation(d: int, b: int, c: int)
    requires Cong(b, 1) && Cong(b - c, 1 + d * (b * c))
    ensures Cong(c * (1 + d), 0)
  {
    hide *;
    assert d * (b * c) == (d * c) * b && c * (1 + d) == c + d * c;
    CombineTwo(c * (1 + d), 0, -1, b - c, 1 + d * (b * c), 1 - d * c, b, 1);
  }

  lemma FlatSum(p: Point, q: Point)
    requires Fermat() && Flat(p) && Flat(q)
    ensures Flat(Sum(p, q))
  {
    hide OnCurve, Fermat, Cong;
    FlatX(p);
    FlatX(q);
    Closed(p, q);
    SumFractions(p, q);
    CrossMeaning(p, q);
    FlatY(D, p.x, p.y, q.x, q.y, Cross(p, q), Sum(p, q).y);
  }

  lemma FlatY(d: int, x: int, y: int, x': int, y': int, k: int, r: int)
    requires Cong(x, 0) && Cong(x', 0) && Cong(y * y, 1) && Cong(y' * y', 1)
    requires k == d * ((x * y) * (x' * y')) && Cong(r * (1 - k), y * y' + x * x')
    ensures Cong(r * r, 1)
  {
    hide *;
    var e := d * (y * (x' * y'));
    assert k == e * x;
    assert r - y * y' == (r * (1 - k) - (y * y' + x * x')) + (r * e + x') * x by {
      assert r * (e * x) == (r * e) * x;
    }
    CombineTwo(r, y * y', 1, r * (1 - k), y * y' + x * x', r * e + x', x, 0);
    CongMul(r, y * y', r, y * y');
    Regroup(y, y, y', y');
    CongMul(y * y, 1, y' * y', 1);
    CongTrans(r * r, (y * y) * (y' * y'), 1);
  }

  lemma {:induction false} FlatMultiple(n: nat, a: Point)
    requires CurveFacts() && Flat(a)
    ensures Flat(Multiple(n, a))
    decreases n
  {
    hide CurveFacts, Flat, Sum;
    FactsOfCurve();
    if n == 0 {
      FlatOrigin();
    } else {
      FlatMultiple(n - 1, a);
      FlatSum(Multiple(n - 1, a), a);
    }
  }

  lemma FlatOrigin()
    ensures Flat(ORIGIN)
  {
    OriginOnCurve();
    CongSelf(1 * 1, 1);
  }

  // Both have coordinate zero.
  lemma FlatCoordinate(y: int)
    requires Fermat() && Cong(y * y, 1)
    ensures Cong(MontgomeryX(y), 0)
  {
    hide *;
    MontgomeryIs(y);
    assert (1 - y) * (1 + y) == 1 - y * y;
    Combine((1 - y) * (1 + y), 0, -1, y * y, 1);
    ZeroFactor(1 - y, 1 + y);
    if Cong(1 - y, 0) {
      DivideByZero(y + 1, 1 - y);
    } else {
      CongTimes(1 + y, 0, Inv(1 - y));
    }
  }

  // For u = 0 the ladder never leaves z = 0 after its first bit.
  lemma {:induction false} FlatLadder(n: nat, k: nat, u: int)
    requires Cong(u, 0)
    ensures var h := LadderPair(n, k, u);
            && Cong(h.0.x * h.0.z, 0) && Cong(h.1.x * h.1.z, 0)
            && (k > 0 || n == 0 ==> Cong(h.0.z, 0))
    decreases k
  {
    hide Cong, DoubleRatio, AddRatio;
    if k == 0 {
      CongSelf(0, 0);
    } else {
      var h := LadderPair(n / 2, k - 1, u);
      FlatLadder(n / 2, k - 1, u);
      FlatDouble(h.0);
      FlatDouble(h.1);
      FlatAdd(h.0, h.1, u);
    }
  }

  lemma FlatDouble(p: Ratio)
    requires Cong(p.x * p.z, 0)
    ensures var r := DoubleRatio(p); Cong(r.z, 0) && Cong(r.x * r.z, 0)
  {
    hide *;
    var aa, bb := (p.x + p.z) * (p.x + p.z), (p.x - p.z) * (p.x - p.z);
    var e := aa - bb;
    DoubleParts(p, aa, bb, e);
    assert e == 4 * (p.x * p.z);
    CongTimes(p.x * p.z, 0, 4);
    CongTimes(e, 0, aa + 121665 * e);
    CongTimes(DoubleRatio(p).z, 0, DoubleRatio(p).x);
  }

  lemma FlatAdd(p: Ratio, q: Ratio, u: int)
    requires Cong(u, 0)
    ensures var r := AddRatio(p, q, u); Cong(r.z, 0) && Cong(r.x * r.z, 0)
  {
    hide *;
    var da, cb := (q.x - q.z) * (p.x + p.z), (q.x + q.z) * (p.x - p.z);
    AddParts(p, q, u, da, cb);
    CongTimes(u, 0, (da - cb) * (da - cb));
    CongTimes(AddRatio(p, q, u).z, 0, AddRatio(p, q, u).x);
  }

  // ----- the ladder computes multiples of every point -----

  // The ladder's x / z, from the coordinate of a point, is the coordinate of its multiple, for every point of the
  // curve and every n.
  lemma {:induction false} LadderIsMultiple(a: Point, u: int, n: nat, k: nat)
    requires CurveFacts() && OnCurve(a) && Cong(u, MontgomeryX(a.y)) && n < Exp2(k)
    ensures var p := LadderPair(n, k, u).0;
            Cong(p.x * Inv(p.z), MontgomeryX(Multiple(n, a).y))
  {
    hide *;
    FactsOfCurve();
    var p := LadderPair(n, k, u).0;
    if Affine(u, a.y) {
      CurveLaws(a, u);
      LadderMultiples((m: nat, q: Ratio) => Represents(q, Multiple(m, a).y), n, k, u);
      RatioIsMontgomery(p, Multiple(n, a).y);
    } else {
      NotAffine(a, u);
      FlatMultiple(n, a);
      FlatElim(Multiple(n, a));
      FlatCoordinate(Multiple(n, a).y);
      FlatLadder(n, k, u);
      EmptyLadder(n, k);
      DivideByZero(p.x, p.z);
      CongSym(MontgomeryX(Multiple(n, a).y), 0);
      CongTrans(p.x * Inv(p.z), 0, MontgomeryX(Multiple(n, a).y));
    }
  }

  lemma {:induction false} EmptyLadder(n: nat, k: nat)
    requires n < Exp2(k)
    ensures k > 0 || n == 0
  {
  }

  lemma FlatElim(p: Point)
    requires Flat(p)
    ensures Cong(p.y * p.y, 1)
  {
    hide OnCurve, Cong;
  }

  lemma NotAffine(a: Point, u: int)
    requires Fermat() && OnCurve(a) && Cong(u, MontgomeryX(a.y)) && !Affine(u, a.y)
    ensures Cong(u, 0) && Flat(a)
  {
    hide OnCurve, Fermat, Cong, Affine, MontgomeryX, Inv;
    var y := a.y;
    AffineMeaning(u, y);
    MontgomeryIs(y);
    assert (1 - y) * (1 + y) == 1 - y * y;
    if Cong(1 - y, 0) {
      DivideByZero(y + 1, 1 - y);
      CongTrans(u, MontgomeryX(y), 0);
      CongTimes(1 - y, 0, 1 + y);
    } else {
      Quotient(y + 1, 1 - y);
      CongTimes(u, MontgomeryX(y), 1 - y);
      CongTrans(u * (1 - y), MontgomeryX(y) * (1 - y), 1 + y);
      CongTimes(u, 0, 1 - y) by {
        assert Cong(u, 0);
      }
      CongSym(u * (1 - y), 1 + y);
      CongTrans(1 + y, u * (1 - y), 0);
      CongTimes(1 + y, 0, 1 - y);
    }
    Combine(y * y, 1, -1, (1 - y) * (1 + y), 0);
  }
}
