// ntfe/ed25519/fe.c: the two fixed powers of a field element, by repeated squaring.
module FieldPower {
  import opened Bytes
  import opened Congruence
  import opened Limbs
  import opened FieldArithmetic
  import opened Packing

  // t is z^e modulo p, and small enough to be multiplied.
  ghost predicate IsPower(t: Fe, z: Fe, e: nat) {
    Within(t, LOOSE) && Cong(Value(t), Pow(Value(z), e))
  }

  method Times(s: Fe, t: Fe, ghost z: Fe, ghost d: nat, ghost e: nat) returns (r: Fe)
    requires IsPower(s, z, d) && IsPower(t, z, e)
    ensures IsPower(r, z, d + e) && Within(r, TIGHT)
  {
    hide Pow, Cong, Value, Within;
    r := Mul(s, t);
    WithinWeaken(r, TIGHT, LOOSE);
    CongMul(Value(s), Pow(Value(z), d), Value(t), Pow(Value(z), e));
    PowAdd(Value(z), d, e);
    CongTrans(Value(r), Value(s) * Value(t), Pow(Value(z), d + e));
  }

  method Doubled(t: Fe, ghost z: Fe, ghost e: nat) returns (r: Fe)
    requires IsPower(t, z, e)
    ensures IsPower(r, z, 2 * e)
  {
    hide Pow, Cong, Value, Within;
    r := Square(t);
    WithinWeaken(r, TIGHT, LOOSE);
    CongMul(Value(t), Pow(Value(z), e), Value(t), Pow(Value(z), e));
    PowAdd(Value(z), e, e);
    assert e + e == 2 * e;
    CongTrans(Value(r), Value(t) * Value(t), Pow(Value(z), 2 * e));
  }

  // e * 2^n, the exponent after n squarings
  ghost function Raised(e: nat, n: nat): nat
    decreases n
  {
    if n == 0 then e else 2 * Raised(e, n - 1)
  }

  // The recurring shape fe_sq(r, t); for (i = 1; i < n; ++i) fe_sq(r, r);
  method SquareTimes(t: Fe, n: nat, ghost z: Fe, ghost e: nat) returns (r: Fe)
    requires n >= 1 && IsPower(t, z, e)
    ensures IsPower(r, z, Raised(e, n))
  {
    hide IsPower;
    r := Doubled(t, z, e);
    var i := 1;
    while i < n
      invariant 1 <= i <= n
      invariant IsPower(r, z, Raised(e, i))
    {
      r := Doubled(r, z, Raised(e, i));
      i := i + 1;
    }
  }

  // 2^n - 1
  ghost function Ones(n: nat): nat {
    Exp2(n) - 1
  }

  lemma {:induction false} OnesJoin(m: nat, n: nat)
    ensures Raised(Ones(m), n) + Ones(n) == Ones(m + n)
    decreases n
  {
    if n > 0 {
      OnesJoin(m, n - 1);
      assert m + n - 1 == m + (n - 1);
    }
  }

  // The part fe_invert and fe_pow22523 share: z^(2^250 - 1). fe_invert also keeps z^11.
  method PowerOfOnes250(z: Fe) returns (ones250: Fe, z11: Fe)
    requires Within(z, LOOSE)
    ensures IsPower(ones250, z, Ones(250)) && IsPower(z11, z, 11)
  {
    hide *;
    var ones5;
    z11, ones5 := PowerOfOnes5(z);
    var ones10 := Extend(ones5, 5, ones5, 5, z);
    var ones20 := Extend(ones10, 10, ones10, 10, z);
    var ones40 := Extend(ones20, 20, ones20, 20, z);
    var ones50 := Extend(ones40, 10, ones10, 40, z);
    var ones100 := Extend(ones50, 50, ones50, 50, z);
    var ones200 := Extend(ones100, 100, ones100, 100, z);
    ones250 := Extend(ones200, 50, ones50, 200, z);
  }

  // From z^(2^m - 1) and z^(2^n - 1) to z^(2^(m+n) - 1): n squarings and a product.
  method Extend(s: Fe, n: nat, t: Fe, ghost m: nat, ghost z: Fe) returns (r: Fe)
    requires n >= 1 && IsPower(s, z, Ones(m)) && IsPower(t, z, Ones(n))
    ensures IsPower(r, z, Ones(m + n))
  {
    hide *;
    var u := SquareTimes(s, n, z, Ones(m));
    r := Times(u, t, z, Raised(Ones(m), n), Ones(n));
    OnesJoin(m, n);
  }

  method PowerOfOnes5(z: Fe) returns (z11: Fe, z31: Fe)
    requires Within(z, LOOSE)
    ensures IsPower(z11, z, 11) && IsPower(z31, z, Ones(5))
  {
    PowerOne(z);
    OnesSmall();
    hide *;
    var t0 := SquareTimes(z, 1, z, 1);
    var t1 := SquareTimes(t0, 2, z, 2);
    t1 := Times(z, t1, z, 1, 8);
    t0 := Times(t0, t1, z, 2, 9);
    z11 := t0;
    var t2 := SquareTimes(t0, 1, z, 11);
    z31 := Times(t1, t2, z, 9, 22);
  }

  lemma OnesSmall()
    ensures Ones(5) == 31
    ensures Raised(1, 1) == 2 && Raised(2, 2) == 8 && Raised(11, 1) == 22
  {
    ExpSmall();
  }

  lemma PowerOne(z: Fe)
    requires Within(z, LOOSE)
    ensures IsPower(z, z, 1)
  {
    hide Cong, Within;
    assert Pow(Value(z), 1) == Value(z) * Pow(Value(z), 0);
    CongSelf(Value(z), Pow(Value(z), 1));
  }

  // z^(p - 2): the inverse of z, by Fermat's little theorem.
  method Invert(z: Fe) returns (out: Fe)
    requires Within(z, LOOSE)
    ensures Within(out, TIGHT)
    ensures Cong(Value(out), Pow(Value(z), P - 2))
  {
    var t1, t0 := PowerOfOnes250(z);
    Exponents();
    hide Raised, Ones, Within, Cong, Pow, Value;
    t1 := SquareTimes(t1, 5, z, Ones(250));
    out := Times(t1, t0, z, Raised(Ones(250), 5), 11);
  }

  // z^((p - 5) / 8)
  method Pow22523(z: Fe) returns (out: Fe)
    requires Within(z, LOOSE)
    ensures Within(out, TIGHT)
    ensures Cong(Value(out), Pow(Value(z), (P - 5) / 8))
  {
    PowerOne(z);
    var t0, _ := PowerOfOnes250(z);
    Exponents();
    hide Raised, Ones, Within, Cong, Pow, Value;
    t0 := SquareTimes(t0, 2, z, Ones(250));
    out := Times(t0, z, z, Raised(Ones(250), 2), 1);
  }

  lemma {:induction false} RaisedSmall(e: nat)
    ensures Raised(e, 2) == 4 * e && Raised(e, 5) == 32 * e
  {
    assert Raised(e, 3) == 8 * e;
  }

  lemma Exponents()
    ensures Raised(Ones(250), 5) + 11 == P - 2
    ensures Raised(Ones(250), 2) + 1 == (P - 5) / 8
  {
    RaisedSmall(Ones(250));
    ExpSmall();
    Exp248();
    ExpAdd(248, 2);
  }
}
