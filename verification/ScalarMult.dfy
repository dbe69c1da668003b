// ntfe/ed25519/ge.c: the two scalar multiplications of points.
module ScalarMult {
  import opened Bytes
  import opened Congruence
  import opened Limbs
  import opened FieldArithmetic
  import opened FieldSelect
  import opened Recoding
  import opened EdwardsCurve
  import opened GroupElements
  import opened PointMultiples

  // ----- a A + b B -----

  // The first k odd multiples of the point: 1, 3, 5, ...
  ghost predicate OddMultiples(t: seq<Cached>, p: Point, k: nat) {
    k <= |t| && forall j :: 0 <= j < k ==> IsCached(t[j], Multiple(2 * j + 1, p))
  }

  ghost predicate OddPrecomp(t: seq<Precomp>, p: Point) {
    |t| == 8 && forall j :: 0 <= j < 8 ==> IsPrecomp(t[j], Multiple(2 * j + 1, p))
  }

  lemma {:induction false} TableEntry(t: seq<Cached>, p: Point, k: nat, j: nat, m: int)
    requires OddMultiples(t, p, k) && j < k && m == 2 * j + 1
    ensures IsCached(t[j], Multiple(m, p))
  {
    hide IsCached, Multiple;
  }

  lemma {:induction false} TableNext(t: seq<Cached>, p: Point, k: nat, c: Cached)
    requires k < |t| && OddMultiples(t, p, k) && IsCached(c, Multiple(2 * k + 1, p))
    ensures OddMultiples(t[k := c], p, k + 1)
  {
    hide IsCached, Multiple;
  }

  lemma {:induction false} PrecompEntry(t: seq<Precomp>, p: Point, j: nat, m: int)
    requires OddPrecomp(t, p) && j < 8 && m == 2 * j + 1
    ensures |t| == 8 && IsPrecomp(t[j], Multiple(m, p))
  {
    hide IsPrecomp, Multiple;
  }

  // A, 3A, 5A, ..., 15A
  method OddTable(A: P3, ghost p: Point) returns (table: array<Cached>)
    requires CurveFacts() && OnCurve(p) && IsP3(A, p)
    ensures fresh(table) && table.Length == 8 && OddMultiples(table[..], p, 8)
  {
    hide *;
    var first, A2 := FirstOdd(A, p);
    table := new Cached[8];
    table[0] := first;
    TableStart(table[..], p);
    var k := 0;
    while k < 7
      invariant 0 <= k <= 7 && table.Length == 8
      invariant OddMultiples(table[..], p, k + 1)
    {
      TableEntry(table[..], p, k + 1, k, 2 * k + 1);
      var c := NextOdd(A2, table[k], 2 * k + 1, p);
      TableNext(table[..], p, k + 1, c);
      ghost var was := table[..];
      table[k + 1] := c;
      assert table[..] == was[k + 1 := c];
      k := k + 1;
    }
  }

  method FirstOdd(A: P3, ghost p: Point) returns (first: Cached, A2: P3)
    requires CurveFacts() && OnCurve(p) && IsP3(A, p)
    ensures IsCached(first, Multiple(1, p)) && IsP3(A2, Multiple(2, p))
  {
    hide CurveFacts, OnCurve, IsP3, IsP1P1, IsCached, Multiple, Sum, Fermat;
    FactsOfCurve();
    first := P3ToCached(A, p);
    MultipleOne(p);
    MultipleAdd(1, 1, p);
    var t := DoubleP3(A, p);
    A2 := P1P1ToP3(t, Sum(p, p));
  }

  lemma {:induction false} TableStart(t: seq<Cached>, p: Point)
    requires |t| > 0 && IsCached(t[0], Multiple(1, p))
    ensures OddMultiples(t, p, 1)
  {
    hide IsCached, Multiple;
  }

  // ge_add(&t, &A2, &Ai[k]); ge_p1p1_to_p3(&u, &t); ge_p3_to_cached(&Ai[k + 1], &u);
  method NextOdd(A2: P3, entry: Cached, ghost m: int, ghost p: Point) returns (next: Cached)
    requires CurveFacts() && OnCurve(p) && IsP3(A2, Multiple(2, p)) && IsCached(entry, Multiple(m, p))
    ensures IsCached(next, Multiple(m + 2, p))
  {
    hide CurveFacts, OnCurve, IsP3, IsP1P1, IsCached, Multiple, Sum, Fermat;
    FactsOfCurve();
    MultipleOnCurve(2, p);
    MultipleOnCurve(m, p);
    MultipleAdd(2, m, p);
    assert 2 + m == m + 2;
    var t := AddCached(A2, entry, Multiple(2, p), Multiple(m, p));
    var u := P1P1ToP3(t, Multiple(m + 2, p));
    next := P3ToCached(u, Multiple(m + 2, p));
  }

  lemma WindowIndex(d: int8)
    requires IsWindow(d)
    ensures d > 0 ==> d as int == 2 * (d as int / 2) + 1 && d as int / 2 < 8
    ensures d < 0 ==> -(d as int) == 2 * (-(d as int) / 2) + 1 && -(d as int) / 2 < 8
  {
  }

  // Add the digit's multiple of A: nothing for 0, a table entry for an odd digit of either sign.
  method AddOddMultiple(t: P1P1, d: int8, table: array<Cached>, ghost s: Point, ghost p: Point) returns (r: P1P1)
    requires CurveFacts() && OnCurve(s) && OnCurve(p) && IsP1P1(t, s)
    requires table.Length == 8 && OddMultiples(table[..], p, 8) && IsWindow(d)
    ensures IsP1P1(r, Sum(s, Multiple(d as int, p)))
  {
    hide *;
    if d > 0 {
      r := PlusCached(t, d, table, s, p);
    } else if d < 0 {
      r := MinusCached(t, d, table, s, p);
    } else {
      r := t;
      GroupLaws(s, p);
      MultipleZero(p);
    }
  }

  method PlusCached(t: P1P1, d: int8, table: array<Cached>, ghost s: Point, ghost p: Point) returns (r: P1P1)
    requires CurveFacts() && OnCurve(s) && OnCurve(p) && IsP1P1(t, s)
    requires table.Length == 8 && OddMultiples(table[..], p, 8) && IsWindow(d) && d > 0
    ensures IsP1P1(r, Sum(s, Multiple(d as int, p)))
  {
    hide CurveFacts, OnCurve, IsP3, IsP1P1, IsCached, Multiple, Sum, Fermat, Negative, OddMultiples, OddPrecomp,
         IsWindow;
    FactsOfCurve();
    WindowIndex(d);
    MultipleOnCurve(d as int, p);
    var j := d as int / 2;
    TableEntry(table[..], p, 8, j, d as int);
    var u := P1P1ToP3(t, s);
    r := AddCached(u, table[j], s, Multiple(d as int, p));
  }

  method MinusCached(t: P1P1, d: int8, table: array<Cached>, ghost s: Point, ghost p: Point) returns (r: P1P1)
    requires CurveFacts() && OnCurve(s) && OnCurve(p) && IsP1P1(t, s)
    requires table.Length == 8 && OddMultiples(table[..], p, 8) && IsWindow(d) && d < 0
    ensures IsP1P1(r, Sum(s, Multiple(d as int, p)))
  {
    hide CurveFacts, OnCurve, IsP3, IsP1P1, IsCached, Multiple, Sum, Fermat, Negative, OddMultiples, OddPrecomp,
         IsWindow;
    FactsOfCurve();
    WindowIndex(d);
    ghost var m := -(d as int);
    MultipleOnCurve(m, p);
    var j := -(d as int) / 2;
    TableEntry(table[..], p, 8, j, m);
    MultipleNegative(m, p);
    assert -m == d as int;
    var u := P1P1ToP3(t, s);
    r := SubCached(u, table[j], s, Multiple(m, p));
  }

  lemma {:induction false} MultipleZero(p: Point)
    ensures Multiple(0, p) == ORIGIN
  {
  }

  method AddOddPrecomp(t: P1P1, d: int8, table: seq<Precomp>, ghost s: Point, ghost p: Point) returns (r: P1P1)
    requires CurveFacts() && OnCurve(s) && OnCurve(p) && IsP1P1(t, s)
    requires OddPrecomp(table, p) && IsWindow(d)
    ensures IsP1P1(r, Sum(s, Multiple(d as int, p)))
  {
    hide *;
    if d > 0 {
      r := PlusPrecomp(t, d, table, s, p);
    } else if d < 0 {
      r := MinusPrecomp(t, d, table, s, p);
    } else {
      r := t;
      GroupLaws(s, p);
      MultipleZero(p);
    }
  }

  method PlusPrecomp(t: P1P1, d: int8, table: seq<Precomp>, ghost s: Point, ghost p: Point) returns (r: P1P1)
    requires CurveFacts() && OnCurve(s) && OnCurve(p) && IsP1P1(t, s)
    requires OddPrecomp(table, p) && IsWindow(d) && d > 0
    ensures IsP1P1(r, Sum(s, Multiple(d as int, p)))
  {
    hide CurveFacts, OnCurve, IsP3, IsP1P1, IsPrecomp, Multiple, Sum, Fermat, Negative, OddMultiples, OddPrecomp,
         IsWindow;
    FactsOfCurve();
    WindowIndex(d);
    MultipleOnCurve(d as int, p);
    var j := d as int / 2;
    PrecompEntry(table, p, j, d as int);
    var u := P1P1ToP3(t, s);
    r := AddPrecomp(u, table[j], s, Multiple(d as int, p));
  }

  method MinusPrecomp(t: P1P1, d: int8, table: seq<Precomp>, ghost s: Point, ghost p: Point) returns (r: P1P1)
    requires CurveFacts() && OnCurve(s) && OnCurve(p) && IsP1P1(t, s)
    requires OddPrecomp(table, p) && IsWindow(d) && d < 0
    ensures IsP1P1(r, Sum(s, Multiple(d as int, p)))
  {
    hide CurveFacts, OnCurve, IsP3, IsP1P1, IsPrecomp, Multiple, Sum, Fermat, Negative, OddMultiples, OddPrecomp,
         IsWindow;
    FactsOfCurve();
    WindowIndex(d);
    ghost var m := -(d as int);
    MultipleOnCurve(m, p);
    var j := -(d as int) / 2;
    PrecompEntry(table, p, j, m);
    MultipleNegative(m, p);
    assert -m == d as int;
    var u := P1P1ToP3(t, s);
    r := SubPrecomp(u, table[j], s, Multiple(m, p));
  }

  // x A + y B
  ghost function Combination(x: int, p: Point, y: int, q: Point): Point {
    Sum(Multiple(x, p), Multiple(y, q))
  }

  lemma {:induction false} CombinationOnCurve(x: int, p: Point, y: int, q: Point)
    requires CurveFacts() && OnCurve(p) && OnCurve(q)
    ensures OnCurve(Combination(x, p, y, q)) && OnCurve(Multiple(x, p)) && OnCurve(Multiple(y, q))
  {
    hide CurveFacts, OnCurve, Sum, Multiple;
    MultipleOnCurve(x, p);
    MultipleOnCurve(y, q);
    GroupLaws(Multiple(x, p), Multiple(y, q));
  }

  lemma Interchange(a: Point, b: Point, c: Point, d: Point)
    requires CurveFacts() && OnCurve(a) && OnCurve(b) && OnCurve(c) && OnCurve(d)
    ensures Sum(Sum(a, b), Sum(c, d)) == Sum(Sum(a, c), Sum(b, d))
  {
    hide *;
    GroupLaws(a, b);
    GroupLaws(c, d);
    GroupLaws(b, c);
    GroupLaws(b, d);
    Assoc(a, b, Sum(c, d));
    Assoc(b, c, d);
    Assoc(c, b, d);
    Assoc(a, c, Sum(b, d));
  }

  // One Horner step: double, then add the two digits.
  lemma {:induction false} HornerStep(x: int, d: int, p: Point, y: int, e: int, q: Point)
    requires CurveFacts() && OnCurve(p) && OnCurve(q)
    ensures var s := Combination(x, p, y, q);
            && OnCurve(Sum(s, s)) && OnCurve(Sum(Sum(s, s), Multiple(d, p)))
            && Sum(Sum(Sum(s, s), Multiple(d, p)), Multiple(e, q)) == Combination(d + 2 * x, p, e + 2 * y, q)
  {
    hide CurveFacts, OnCurve, Sum, Multiple;
    CombinationOnCurve(x, p, y, q);
    CombinationOnCurve(d, p, e, q);
    var a, b, c, f := Multiple(x, p), Multiple(y, q), Multiple(d, p), Multiple(e, q);
    Interchange(a, b, a, b);
    GroupLaws(a, a);
    GroupLaws(b, b);
    var s := Sum(a, b);
    GroupLaws(s, s);
    GroupLaws(Sum(s, s), c);
    Assoc(Sum(s, s), c, f);
    Interchange(Sum(a, a), Sum(b, b), c, f);
    MultipleAdd(x, x, p);
    MultipleAdd(x + x, d, p);
    MultipleAdd(y, y, q);
    MultipleAdd(y + y, e, q);
    assert x + x + d == d + 2 * x && y + y + e == e + 2 * y;
  }

  // Dropping the leading zero digits of both strings.
  method SkipZeros(s: array<int8>, t: array<int8>) returns (n: nat)
    requires s.Length == 256 && t.Length == 256
    ensures n <= 256
    ensures forall j :: n <= j < 256 ==> s[j] == 0 && t[j] == 0
  {
    var i := 255;
    while i >= 0
      invariant -1 <= i < 256
      invariant forall j :: i < j < 256 ==> s[j] == 0 && t[j] == 0
    {
      if s[i] != 0 || t[i] != 0 {
        break;
      }
      i := i - 1;
    }
    n := i + 1;
  }

  // r = a A + b B, for scalars below 2^255
  method DoubleScalarMult(a: seq<byte>, A: P3, b: seq<byte>, Bi: seq<Precomp>, ghost p: Point, ghost q: Point)
    returns (r: P2)
    requires CurveFacts() && OnCurve(p) && OnCurve(q) && IsP3(A, p) && OddPrecomp(Bi, q)
    requires |a| == 32 && |b| == 32 && Le(a) < EXP255 && Le(b) < EXP255
    ensures IsP2(r, Combination(Le(a), p, Le(b), q))
  {
    hide CurveFacts, OnCurve, IsP2, IsP3, OddPrecomp, OddMultiples, Combination, Le, Digits, IsWindow;
    var aslide := new int8[256];
    var bslide := new int8[256];
    Slide(aslide, a);
    Slide(bslide, b);
    ghost var ds, es := aslide[..], bslide[..];
    var Ai := OddTable(A, p);
    assert aslide[..] == ds && bslide[..] == es;
    r := ZeroP2();
    var i := SkipZeros(aslide, bslide);
    assert forall j :: i <= j < 256 ==> ds[j] == aslide[j] == 0 && es[j] == bslide[j] == 0;
    DigitsZero(ds[i..], 2);
    DigitsZero(es[i..], 2);
    ZeroCombination(p, q);
    while i > 0
      invariant 0 <= i <= 256 && aslide[..] == ds && bslide[..] == es
      invariant OddMultiples(Ai[..], p, 8)
      invariant IsP2(r, Combination(Digits(ds[i..], 2), p, Digits(es[i..], 2), q))
    {
      i := i - 1;
      r := Step(r, aslide[i], bslide[i], Ai, Bi, Digits(ds[i + 1..], 2), Digits(es[i + 1..], 2), p, q);
      DigitsHead(ds, i, 2);
      DigitsHead(es, i, 2);
    }
    assert ds[0..] == ds && es[0..] == es;
  }

  lemma ZeroCombination(p: Point, q: Point)
    requires CurveFacts() && OnCurve(p)
    ensures Combination(0, p, 0, q) == ORIGIN
  {
    hide CurveFacts, OnCurve, Sum;
    GroupLaws(p, p);
    GroupLaws(ORIGIN, p);
  }

  lemma {:induction false} DigitsHead(s: seq<int8>, i: nat, b: nat)
    requires i < |s|
    ensures Digits(s[i..], b) == s[i] as int + b * Digits(s[i + 1..], b)
  {
    assert s[i..][1..] == s[i + 1..];
  }

  // The body of the main loop.
  method Step(r: P2, d: int8, e: int8, Ai: array<Cached>, Bi: seq<Precomp>,
              ghost x: int, ghost y: int, ghost p: Point, ghost q: Point) returns (s: P2)
    requires CurveFacts() && OnCurve(p) && OnCurve(q) && IsP2(r, Combination(x, p, y, q))
    requires Ai.Length == 8 && OddMultiples(Ai[..], p, 8) && OddPrecomp(Bi, q)
    requires IsWindow(d) && IsWindow(e)
    ensures IsP2(s, Combination(d as int + 2 * x, p, e as int + 2 * y, q))
  {
    hide CurveFacts, OnCurve, IsP2, IsP1P1, OddPrecomp, OddMultiples, Combination, Sum, Multiple, Fermat, IsWindow;
    FactsOfCurve();
    ghost var c := Combination(x, p, y, q);
    CombinationOnCurve(x, p, y, q);
    HornerStep(x, d as int, p, y, e as int, q);
    var t := DoubleP2(r, c);
    t := AddOddMultiple(t, d, Ai, Sum(c, c), p);
    t := AddOddPrecomp(t, e, Bi, Sum(Sum(c, c), Multiple(d as int, p)), q);
    s := P1P1ToP2(t, Combination(d as int + 2 * x, p, e as int + 2 * y, q));
  }

  // ----- a B from the table of multiples of the base point -----

  // Entry j of row i is (j + 1) 256^i B.
  ghost predicate BaseTable(base: seq<seq<Precomp>>, p: Point) {
    |base| == 32 && forall i :: 0 <= i < 32 ==> BaseRow(base[i], Multiple(Pow(256, i), p))
  }

  ghost predicate BaseRow(row: seq<Precomp>, p: Point) {
    |row| == 8 && forall j :: 0 <= j < 8 ==> IsPrecomp(row[j], Multiple(j + 1, p))
  }

  // equal: 1 when the two bytes agree, by the sign of (b ^ c) - 1 in 64 bits
  method Equal(b: byte, c: byte) returns (r: byte)
    ensures r == if b == c then 1 else 0
  {
    ExpSmall();
    XorEqual(b, c);
    XorBound(b, c, 8);
    var x: nat := BitXor(b, c);
    var y := (x - 1) % 0x1_0000_0000_0000_0000;
    r := y / 0x8000_0000_0000_0000;
  }

  // negative: the top bit of the sign-extended digit
  method IsNegative(b: int8) returns (r: byte)
    ensures r == if b < 0 then 1 else 0
  {
    var x := b as int % 0x1_0000_0000_0000_0000;
    r := x / 0x8000_0000_0000_0000;
  }

  // babs = b - (((-bnegative) & b) << 1)
  method Magnitude(b: int8, negative: byte) returns (m: byte)
    requires negative == if b < 0 then 1 else 0
    ensures m as int == if b < 0 then -(b as int) else b as int
  {
    var word := Word(b as int32);
    MaskedWord(negative, word);
    SignedWord(b as int32);
    var masked := Signed(BitAnd(Mask(negative), word));
    m := (b as int - masked as int * 2) % 256;
  }

  method MovePrecomp(t: Precomp, u: Precomp, b: byte) returns (r: Precomp)
    requires b <= 1
    ensures r == if b == 1 then u else t
  {
    var plus := Move(t.yplusx, u.yplusx, b);
    var minus := Move(t.yminusx, u.yminusx, b);
    var xy := Move(t.xy2d, u.xy2d, b);
    r := Precomp(plus, minus, xy);
  }

  // |b| times the row's point: the neutral element overwritten by the one entry whose number matches.
  method SelectMagnitude(row: seq<Precomp>, m: byte, ghost p: Point) returns (t: Precomp)
    requires CurveFacts() && OnCurve(p) && BaseRow(row, p) && m <= 8
    ensures IsPrecomp(t, Multiple(m, p))
  {
    hide IsPrecomp, Multiple, CurveFacts, OnCurve;
    var one := One();
    var zero := Zero();
    t := Precomp(one, one, zero);
    NeutralPrecomp(t, p);
    var j: byte := 1;
    while j <= 8
      invariant 1 <= j <= 9
      invariant m == 0 || m >= j ==> IsPrecomp(t, Multiple(0, p))
      invariant 1 <= m < j ==> IsPrecomp(t, Multiple(m, p))
    {
      var hit := Equal(m, j);
      assert IsPrecomp(row[j - 1], Multiple(j - 1 + 1, p));
      t := MovePrecomp(t, row[j - 1], hit);
      j := j + 1;
    }
  }

  lemma {:induction false} NeutralPrecomp(t: Precomp, p: Point)
    requires Value(t.yplusx) == 1 && Value(t.yminusx) == 1 && Value(t.xy2d) == 0
    requires Within(t.yplusx, TIGHT) && Within(t.yminusx, TIGHT) && Within(t.xy2d, TIGHT)
    ensures IsPrecomp(t, Multiple(0, p))
  {
    hide Cong, Within, Value;
    assert D * (0 * 1) == 0;
    ZeroNotOne();
    CongSelf(1, (1 + 0) * 1);
    CongSelf(1, (1 - 0) * 1);
    CongSelf(0, (2 * (D * (0 * 1))) * 1);
  }

  // select: the entry for |b|, with y + x and y - x exchanged and 2 d x y negated when b is negative
  method Select(row: seq<Precomp>, b: int8, ghost p: Point) returns (t: Precomp)
    requires CurveFacts() && OnCurve(p) && BaseRow(row, p) && -8 <= b <= 8
    ensures IsPrecomp(t, Multiple(b as int, p))
  {
    hide CurveFacts, OnCurve, BaseRow, Multiple, Negative, Value, Within, IsPrecomp;
    var bnegative := IsNegative(b);
    var babs := Magnitude(b, bnegative);
    t := SelectMagnitude(row, babs, p);
    ghost var m: int := babs as int;
    PrecompTight(t, Multiple(m, p));
    var xy := Neg(t.xy2d, TIGHT);
    var minust := Precomp(t.yminusx, t.yplusx, xy);
    NegatedPrecomp(t, minust, Multiple(m, p));
    MultipleNegative(m, p);
    t := MovePrecomp(t, minust, bnegative);
  }

  lemma PrecompTight(t: Precomp, p: Point)
    requires IsPrecomp(t, p)
    ensures Within(t.xy2d, TIGHT)
  {
  }

  lemma NegatedPrecomp(t: Precomp, minust: Precomp, p: Point)
    requires IsPrecomp(t, p) && Within(minust.xy2d, TIGHT)
    requires minust.yplusx == t.yminusx && minust.yminusx == t.yplusx && Value(minust.xy2d) == -Value(t.xy2d)
    ensures IsPrecomp(minust, Negative(p))
  {
    hide Operand, Negative, Value, Within;
    OperandNegative(p, Value(t.yplusx), Value(t.yminusx), 1, Value(t.xy2d));
  }

  // One line of either pass: select, ge_madd, ge_p1p1_to_p3.
  method AddSelected(h: P3, row: seq<Precomp>, b: int8, ghost s: Point, ghost p: Point) returns (r: P3)
    requires CurveFacts() && OnCurve(s) && OnCurve(p) && IsP3(h, s) && BaseRow(row, p) && -8 <= b <= 8
    ensures IsP3(r, Sum(s, Multiple(b as int, p)))
  {
    hide CurveFacts, OnCurve, IsP3, IsP1P1, IsPrecomp, BaseRow, Multiple, Sum, Fermat;
    FactsOfCurve();
    MultipleOnCurve(b as int, p);
    var t := Select(row, b, p);
    var u := AddPrecomp(h, t, s, Multiple(b as int, p));
    r := P1P1ToP3(u, Sum(s, Multiple(b as int, p)));
  }

  // Four doublings.
  method TimesSixteen(h: P3, ghost s: Point) returns (r: P3)
    requires CurveFacts() && OnCurve(s) && IsP3(h, s)
    ensures IsP3(r, Multiple(16, s))
  {
    hide CurveFacts, OnCurve, IsP3, IsP2, IsP1P1, Multiple, Sum, Fermat;
    FactsOfCurve();
    DoubleMultiple(1, s);
    DoubleMultiple(2, s);
    DoubleMultiple(4, s);
    DoubleMultiple(8, s);
    MultipleOne(s);
    var u := DoubleP3(h, s);
    var v := P1P1ToP2(u, Multiple(2, s));
    u := DoubleP2(v, Multiple(2, s));
    v := P1P1ToP2(u, Multiple(4, s));
    u := DoubleP2(v, Multiple(4, s));
    v := P1P1ToP2(u, Multiple(8, s));
    u := DoubleP2(v, Multiple(8, s));
    r := P1P1ToP3(u, Multiple(16, s));
  }

  lemma {:induction false} DoubleMultiple(n: int, p: Point)
    requires CurveFacts() && OnCurve(p)
    ensures Sum(Multiple(n, p), Multiple(n, p)) == Multiple(2 * n, p)
    ensures OnCurve(Multiple(n, p))
  {
    hide *;
    MultipleAdd(n, n, p);
    MultipleOnCurve(n, p);
    assert n + n == 2 * n;
  }

  // The digits at the positions of one parity below n, each weighted by 256^(position / 2).
  ghost function Strided(e: seq<int8>, parity: nat, n: nat): int
    requires parity + 2 * n <= |e| + 1 && parity <= 1
    decreases n
  {
    if n == 0 then 0
    else Strided(e, parity, n - 1) + e[2 * (n - 1) + parity] as int * Pow(256, n - 1)
  }

  lemma {:induction false} StridedValue(e: seq<int8>, n: nat)
    requires 2 * n <= |e|
    ensures 16 * Strided(e, 1, n) + Strided(e, 0, n) == Digits(e[..2 * n], 16)
    decreases n
  {
    hide Digits, Pow;
    if n == 0 {
      DigitsZero(e[..0], 16);
    } else {
      StridedValue(e, n - 1);
      var k := 2 * (n - 1);
      DigitsSnoc(e, k, 16);
      DigitsSnoc(e, k + 1, 16);
      SquaredBase(n - 1);
      assert k + 1 + 1 == 2 * n;
      StridedStep(Pow(256, n - 1), e[k] as int, e[k + 1] as int);
    }
  }

  lemma StridedStep(q: int, low: int, high: int)
    ensures 16 * (high * q) + low * q == q * low + (16 * q) * high
  {
  }

  lemma {:induction false} SquaredBase(n: nat)
    ensures Pow(16, 2 * n) == Pow(256, n) && Pow(16, 2 * n + 1) == 16 * Pow(256, n)
  {
    if n > 0 {
      SquaredBase(n - 1);
      assert Pow(16, 2 * n) == 16 * Pow(16, 2 * n - 1);
      assert 2 * n - 1 == 2 * (n - 1) + 1;
    }
  }

  // Adding row n's selected entry extends the strided sum by one term.
  lemma StridedNext(e: seq<int8>, parity: nat, n: nat, x: int, p: Point)
    requires CurveFacts() && OnCurve(p)
    requires parity <= 1 && parity + 2 * n < |e|
    ensures Sum(Multiple(x + Strided(e, parity, n), p), Multiple(e[2 * n + parity] as int, Multiple(Pow(256, n), p)))
            == Multiple(x + Strided(e, parity, n + 1), p)
  {
    hide CurveFacts, OnCurve, Multiple, Sum, Pow;
    var d := e[2 * n + parity] as int;
    MultipleTimes(d, Pow(256, n), p);
    MultipleAdd(x + Strided(e, parity, n), d * Pow(256, n), p);
  }

  // One pass over the digits of one parity.
  method Pass(h: P3, e: array<int8>, parity: nat, base: seq<seq<Precomp>>, ghost x: int, ghost p: Point) returns (r: P3)
    requires CurveFacts() && OnCurve(p) && BaseTable(base, p)
    requires e.Length == 64 && parity <= 1 && forall j :: 0 <= j < 64 ==> -8 <= e[j] <= 8
    requires IsP3(h, Multiple(x, p))
    ensures IsP3(r, Multiple(x + Strided(e[..], parity, 32), p))
  {
    hide *;
    ghost var ds := e[..];
    NoDigits(ds);
    r := h;
    var i := parity;
    ghost var n := 0;
    while i < 64
      invariant 0 <= n <= 32 && i == parity + 2 * n
      invariant IsP3(r, Multiple(x + Strided(ds, parity, n), p))
      decreases 64 - i
    {
      BaseRows(base, p, n);
      assert i / 2 == n;
      r := PassRow(r, base[i / 2], e[i], ds, parity, n, x, p);
      i := i + 2;
      n := n + 1;
    }
  }

  method PassRow(h: P3, row: seq<Precomp>, d: int8, ghost ds: seq<int8>, ghost parity: nat, ghost n: nat,
                 ghost x: int, ghost p: Point) returns (r: P3)
    requires CurveFacts() && OnCurve(p) && -8 <= d <= 8
    requires parity <= 1 && parity + 2 * n < |ds| && d == ds[2 * n + parity]
    requires BaseRow(row, Multiple(Pow(256, n), p)) && IsP3(h, Multiple(x + Strided(ds, parity, n), p))
    ensures IsP3(r, Multiple(x + Strided(ds, parity, n + 1), p))
  {
    hide CurveFacts, OnCurve, IsP3, BaseRow, Multiple, Pow, Strided;
    ghost var q, s := Multiple(Pow(256, n), p), Multiple(x + Strided(ds, parity, n), p);
    MultipleOnCurve(Pow(256, n), p);
    MultipleOnCurve(x + Strided(ds, parity, n), p);
    StridedNext(ds, parity, n, x, p);
    r := AddSelected(h, row, d, s, q);
  }

  lemma {:induction false} BaseRows(base: seq<seq<Precomp>>, p: Point, n: nat)
    requires BaseTable(base, p)
    ensures |base| == 32
    ensures n < 32 ==> BaseRow(base[n], Multiple(Pow(256, n), p))
  {
  }

  // h = a B, for a[31] <= 127
  method ScalarMultBase(a: seq<byte>, base: seq<seq<Precomp>>, ghost p: Point) returns (h: P3)
    requires CurveFacts() && OnCurve(p) && BaseTable(base, p)
    requires |a| == 32 && a[31] <= 127
    ensures IsP3(h, Multiple(Le(a), p))
  {
    hide CurveFacts, OnCurve, IsP3, BaseTable, Le, Digits, Multiple, Strided;
    var e := new int8[64];
    Radix16(e, a);
    h := ZeroP3();
    MultipleZero(p);
    NoDigits(e[..]);
    h := Pass(h, e, 1, base, 0, p);
    ghost var odd, even := Strided(e[..], 1, 32), Strided(e[..], 0, 32);
    MultipleOnCurve(odd, p);
    h := TimesSixteen(h, Multiple(odd, p));
    MultipleTimes(16, odd, p);
    h := Pass(h, e, 0, base, 16 * odd, p);
    StridedValue(e[..], 32);
    assert e[..][..64] == e[..];
  }

  lemma {:induction false} NoDigits(e: seq<int8>)
    requires |e| == 64
    ensures Strided(e, 1, 0) == 0 && Strided(e, 0, 0) == 0
  {
  }
}
