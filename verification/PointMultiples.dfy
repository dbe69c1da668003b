// Integer multiples of a point of the curve, and the laws of the group they live in.
module PointMultiples {
  import opened EdwardsCurve

  lemma GroupLaws(p: Point, q: Point)
    requires CurveFacts() && OnCurve(p) && OnCurve(q)
    ensures OnCurve(Sum(p, q)) && OnCurve(Negative(p)) && OnCurve(ORIGIN)
    ensures Sum(p, q) == Sum(q, p)
    ensures Sum(p, ORIGIN) == p == Sum(ORIGIN, p)
    ensures Sum(p, Negative(p)) == ORIGIN == Sum(Negative(p), p)
  {
    hide OnCurve, Fermat, Associative, Sum, Negative;
    Closed(p, q);
    NegativeOnCurve(p);
    OriginOnCurve();
    Commutative(p, q);
    Commutative(p, ORIGIN);
    Commutative(p, Negative(p));
    Neutral(p);
    Inverse(p);
  }

  lemma Assoc(p: Point, q: Point, r: Point)
    requires CurveFacts() && OnCurve(p) && OnCurve(q) && OnCurve(r)
    ensures Sum(Sum(p, q), r) == Sum(p, Sum(q, r))
  {
    hide OnCurve, Fermat, Sum;
    assert AssociativeAt(p, q, r);
  }

  ghost function Multiple(n: int, p: Point): Point
    decreases if n < 0 then -n else n
  {
    if n == 0 then ORIGIN
    else if n > 0 then Sum(Multiple(n - 1, p), p)
    else Sum(Multiple(n + 1, p), Negative(p))
  }

  lemma {:induction false} MultipleOnCurve(n: int, p: Point)
    requires CurveFacts() && OnCurve(p)
    ensures OnCurve(Multiple(n, p))
    decreases if n < 0 then -n else n
  {
    hide CurveFacts, OnCurve, Sum, Negative;
    GroupLaws(p, p);
    if n > 0 {
      MultipleOnCurve(n - 1, p);
      GroupLaws(Multiple(n - 1, p), p);
    } else if n < 0 {
      MultipleOnCurve(n + 1, p);
      GroupLaws(Multiple(n + 1, p), Negative(p));
    }
  }

  // (n + 1) p = n p + p, also for negative n
  lemma MultipleNext(n: int, p: Point)
    requires CurveFacts() && OnCurve(p)
    ensures Multiple(n + 1, p) == Sum(Multiple(n, p), p)
  {
    hide CurveFacts, OnCurve, Sum, Negative;
    if n < 0 {
      GroupLaws(p, p);
      var m := Multiple(n + 1, p);
      MultipleOnCurve(n + 1, p);
      Assoc(m, Negative(p), p);
      GroupLaws(m, p);
    }
  }

  lemma {:induction false} MultipleAdd(m: int, n: int, p: Point)
    requires CurveFacts() && OnCurve(p)
    ensures Multiple(m + n, p) == Sum(Multiple(m, p), Multiple(n, p))
    decreases if n < 0 then -n else n
  {
    hide CurveFacts, OnCurve, Sum, Negative;
    var a := Multiple(m, p);
    MultipleOnCurve(m, p);
    GroupLaws(a, p);
    if n > 0 {
      MultipleAdd(m, n - 1, p);
      MultipleNext(m + n - 1, p);
      MultipleOnCurve(n - 1, p);
      Assoc(a, Multiple(n - 1, p), p);
    } else if n < 0 {
      MultipleAdd(m, n + 1, p);
      MultiplePrevious(m + n, p);
      MultipleOnCurve(n + 1, p);
      GroupLaws(p, p);
      Assoc(a, Multiple(n + 1, p), Negative(p));
    }
  }

  lemma MultiplePrevious(n: int, p: Point)
    requires CurveFacts() && OnCurve(p)
    ensures Multiple(n, p) == Sum(Multiple(n + 1, p), Negative(p))
  {
    hide *;
    MultipleNext(n, p);
    MultipleOnCurve(n, p);
    GroupLaws(p, p);
    Assoc(Multiple(n, p), p, Negative(p));
    GroupLaws(Multiple(n, p), p);
  }

  lemma InverseUnique(p: Point, q: Point)
    requires CurveFacts() && OnCurve(p) && OnCurve(q) && Sum(p, q) == ORIGIN
    ensures q == Negative(p)
  {
    hide *;
    GroupLaws(p, q);
    GroupLaws(Negative(p), p);
    GroupLaws(q, p);
    Assoc(Negative(p), p, q);
  }

  lemma MultipleNegative(n: int, p: Point)
    requires CurveFacts() && OnCurve(p)
    ensures Multiple(-n, p) == Negative(Multiple(n, p))
  {
    hide CurveFacts, OnCurve, Sum, Negative;
    MultipleAdd(n, -n, p);
    MultipleOnCurve(n, p);
    MultipleOnCurve(-n, p);
    InverseUnique(Multiple(n, p), Multiple(-n, p));
  }

  lemma {:induction false} MultipleOne(p: Point)
    requires CurveFacts() && OnCurve(p)
    ensures Multiple(1, p) == p
  {
    hide CurveFacts, OnCurve, Sum, Negative;
    GroupLaws(p, p);
    MultipleNext(0, p);
  }

  lemma {:induction false} MultipleTimes(m: int, n: int, p: Point)
    requires CurveFacts() && OnCurve(p)
    ensures Multiple(m * n, p) == Multiple(m, Multiple(n, p))
    decreases if m < 0 then -m else m
  {
    hide CurveFacts, OnCurve, Sum, Negative;
    var q := Multiple(n, p);
    MultipleOnCurve(n, p);
    if m > 0 {
      MultipleTimes(m - 1, n, p);
      MultipleAdd((m - 1) * n, n, p);
      assert (m - 1) * n + n == m * n;
    } else if m < 0 {
      MultipleTimes(m + 1, n, p);
      MultipleAdd((m + 1) * n, -n, p);
      MultipleNegative(n, p);
      assert (m + 1) * n + -n == m * n;
    } else {
      assert 0 * n == 0;
    }
  }

  lemma {:induction false} MultipleOfOrigin(n: int)
    requires CurveFacts()
    ensures Multiple(n, ORIGIN) == ORIGIN
    decreases if n < 0 then -n else n
  {
    hide CurveFacts, Sum, Negative, OnCurve;
    OriginOnCurve();
    GroupLaws(ORIGIN, ORIGIN);
    if n > 0 {
      MultipleOfOrigin(n - 1);
    } else if n < 0 {
      MultipleOfOrigin(n + 1);
      GroupLaws(Negative(ORIGIN), ORIGIN);
    }
  }

  // Multiples of a point of order dividing m depend only on the multiplier modulo m.
  lemma {:induction false} MultipleModulo(n: int, m: int, p: Point)
    requires CurveFacts() && OnCurve(p) && m > 0 && Multiple(m, p) == ORIGIN
    ensures Multiple(n % m, p) == Multiple(n, p)
  {
    hide *;
    var q := n / m;
    assert n == q * m + n % m;
    MultipleTimes(q, m, p);
    MultipleOfOrigin(q);
    MultipleAdd(q * m, n % m, p);
    MultipleOnCurve(n % m, p);
    GroupLaws(Multiple(n % m, p), p);
  }
}
