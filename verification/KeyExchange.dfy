// ntfe/ed25519/key_exchange.c: the Montgomery ladder with its deferred conditional swap.
module KeyExchange {
  import opened Bytes
  import opened Congruence
  import opened Limbs
  import opened FieldArithmetic
  import opened FieldBytes
  import opened FieldPower
  import opened FieldSelect
  import opened Packing
  import opened EdwardsCurve
  import opened Montgomery
  import opened PointMultiples
  import opened GroupElements
  import opened Recoding
  import PointEncoding
  import ScalarMult
  import Ed25519

  // ----- field elements that stand for a ratio -----

  ghost predicate Stands(x: Fe, z: Fe, p: Ratio) {
    Within(x, TIGHT) && Within(z, TIGHT) && Cong(Value(x), p.x) && Cong(Value(z), p.z)
  }

  // Lines 53 to 70: from p and q to 2 p and p + q.
  method LadderStep(x1: Fe, x2: Fe, z2: Fe, x3: Fe, z3: Fe, ghost p: Ratio, ghost q: Ratio, ghost u: int)
    returns (x2': Fe, z2': Fe, x3': Fe, z3': Fe)
    requires Within(x1, TIGHT) && Cong(Value(x1), u) && Stands(x2, z2, p) && Stands(x3, z3, q)
    ensures Stands(x2', z2', DoubleRatio(p)) && Stands(x3', z3', AddRatio(p, q, u))
  {
    hide Cong, Value, Within, DoubleRatio, AddRatio;
    CongAdd(Value(x2), p.x, Value(z2), p.z);
    CongAdd(Value(x3), q.x, Value(z3), q.z);
    x2', z2', x3', z3' := x2, z2, x3, z3;
    var tmp0 := Sub(x3', z3', TIGHT, TIGHT);
    var tmp1 := Sub(x2', z2', TIGHT, TIGHT);
    x2' := Add(x2', z2', TIGHT, TIGHT);
    z2' := Add(x3', z3', TIGHT, TIGHT);
    ghost var d, b, a, c := Value(tmp0), Value(tmp1), Value(x2'), Value(z2');
    z3' := MulWithin(tmp0, x2', DOUBLE, DOUBLE);
    z2' := MulWithin(z2', tmp1, DOUBLE, DOUBLE);
    ghost var da, cb := Value(z3'), Value(z2');
    WithinWeaken(tmp1, DOUBLE, LOOSE);
    WithinWeaken(x2', DOUBLE, LOOSE);
    tmp0 := Square(tmp1);
    tmp1 := Square(x2');
    ghost var bb, aa := Value(tmp0), Value(tmp1);
    x3' := Add(z3', z2', TIGHT, TIGHT);
    z2' := Sub(z3', z2', TIGHT, TIGHT);
    WithinWeaken(x3', DOUBLE, LOOSE);
    WithinWeaken(z2', DOUBLE, LOOSE);
    x2' := MulWithin(tmp1, tmp0, TIGHT, TIGHT);
    tmp1 := Sub(tmp1, tmp0, TIGHT, TIGHT);
    WithinWeaken(tmp1, DOUBLE, MEDIUM);
    z2' := Square(z2');
    z3' := Mul121666(tmp1);
    x3' := Square(x3');
    tmp0 := Add(tmp0, z3', TIGHT, TIGHT);
    ghost var scaled := Value(z3');
    ghost var square := Value(z2');
    z3' := MulWithin(x1, z2', TIGHT, TIGHT);
    z2' := MulWithin(tmp1, tmp0, DOUBLE, DOUBLE);
    DoubleChain(p, a, b, aa, bb, scaled, Value(x2'), Value(z2'));
    AddChain(p, q, u, Value(x1), a, b, c, d, da, cb, square, Value(x3'), Value(z3'));
  }

  lemma DoubleChain(p: Ratio, a: int, b: int, aa: int, bb: int, scaled: int, x: int, z: int)
    requires Cong(a, p.x + p.z) && Cong(b, p.x - p.z) && Cong(aa, a * a) && Cong(bb, b * b)
    requires Cong(scaled, 121666 * (aa - bb)) && Cong(x, aa * bb) && Cong(z, (aa - bb) * (bb + scaled))
    ensures var r := DoubleRatio(p); Cong(x, r.x) && Cong(z, r.z)
  {
    hide Cong;
    var AA, BB := (p.x + p.z) * (p.x + p.z), (p.x - p.z) * (p.x - p.z);
    var E := AA - BB;
    CongMul(a, p.x + p.z, a, p.x + p.z);
    CongMul(b, p.x - p.z, b, p.x - p.z);
    CongTrans(aa, a * a, AA);
    CongTrans(bb, b * b, BB);
    CongMul(aa, AA, bb, BB);
    CongTrans(x, aa * bb, AA * BB);
    CongAdd(aa, AA, bb, BB);
    CongTimes(aa - bb, E, 121666);
    CongTrans(scaled, 121666 * (aa - bb), 121666 * E);
    CongAdd(bb, BB, scaled, 121666 * E);
    assert BB + 121666 * E == AA + 121665 * E;
    CongMul(aa - bb, E, bb + scaled, AA + 121665 * E);
    CongTrans(z, (aa - bb) * (bb + scaled), E * (AA + 121665 * E));
  }

  lemma AddChain(p: Ratio, q: Ratio, u: int, x1: int, a: int, b: int, c: int, d: int, da: int, cb: int,
                 square: int, x: int, z: int)
    requires Cong(a, p.x + p.z) && Cong(b, p.x - p.z) && Cong(c, q.x + q.z) && Cong(d, q.x - q.z) && Cong(x1, u)
    requires Cong(da, d * a) && Cong(cb, c * b) && Cong(square, (da - cb) * (da - cb))
    requires Cong(x, (da + cb) * (da + cb)) && Cong(z, x1 * square)
    ensures var r := AddRatio(p, q, u); Cong(x, r.x) && Cong(z, r.z)
  {
    hide Cong;
    var DA, CB := (q.x - q.z) * (p.x + p.z), (q.x + q.z) * (p.x - p.z);
    CongMul(d, q.x - q.z, a, p.x + p.z);
    CongMul(c, q.x + q.z, b, p.x - p.z);
    CongTrans(da, d * a, DA);
    CongTrans(cb, c * b, CB);
    CongAdd(da, DA, cb, CB);
    CongMul(da + cb, DA + CB, da + cb, DA + CB);
    CongTrans(x, (da + cb) * (da + cb), (DA + CB) * (DA + CB));
    CongMul(da - cb, DA - CB, da - cb, DA - CB);
    CongTrans(square, (da - cb) * (da - cb), (DA - CB) * (DA - CB));
    CongMul(x1, u, square, (DA - CB) * (DA - CB));
    CongTrans(z, x1 * square, u * ((DA - CB) * (DA - CB)));
  }

  // ----- the loop -----

  // Up to the pending swap, the four field elements are the ladder's pair for n.
  ghost predicate Pending(x2: Fe, z2: Fe, x3: Fe, z3: Fe, swap: nat, n: nat, k: nat, u: int) {
    && swap <= 1
    && var h := LadderPair(n, k, u);
       && Stands(x2, z2, if swap == 1 then h.1 else h.0)
       && Stands(x3, z3, if swap == 1 then h.0 else h.1)
  }

  method CondSwap(x2: Fe, z2: Fe, x3: Fe, z3: Fe, swap: nat) returns (x2': Fe, z2': Fe, x3': Fe, z3': Fe)
    requires swap <= 1
    ensures (x2', z2', x3', z3') == if swap == 1 then (x3, z3, x2, z2) else (x2, z2, x3, z3)
  {
    x2', x3' := Swap(x2, x3, swap);
    z2', z3' := Swap(z2, z3, swap);
  }

  lemma {:induction false} XorBit(s: nat, b: nat)
    requires s <= 1 && b <= 1
    ensures BitXor(s, b) == if s == b then 0 else 1
  {
  }

  // One bit: the loop body.
  method LadderBit(x1: Fe, x2: Fe, z2: Fe, x3: Fe, z3: Fe, swap: nat, b: nat, ghost n: nat, ghost k: nat, ghost u: int)
    returns (x2': Fe, z2': Fe, x3': Fe, z3': Fe)
    requires Within(x1, TIGHT) && Cong(Value(x1), u) && Pending(x2, z2, x3, z3, swap, n, k, u) && b <= 1
    ensures Pending(x2', z2', x3', z3', b, 2 * n + b, k + 1, u)
  {
    hide Stands, LadderPair, DoubleRatio, AddRatio, Cong, Value, Within, BitXor;
    XorBit(swap, b);
    x2', z2', x3', z3' := CondSwap(x2, z2, x3, z3, BitXor(swap, b));
    ghost var h := LadderPair(n, k, u);
    LadderNext(n, b, k, u);
    AddSymmetric(h.0, h.1, u);
    x2', z2', x3', z3' := LadderStep(x1, x2', z2', x3', z3',
                                     if b == 1 then h.1 else h.0, if b == 1 then h.0 else h.1, u);
  }

  lemma LadderNext(n: nat, b: nat, k: nat, u: int)
    requires b <= 1
    ensures var h := LadderPair(n, k, u);
            LadderPair(2 * n + b, k + 1, u) == if b == 0 then (DoubleRatio(h.0), AddRatio(h.0, h.1, u))
                                               else (AddRatio(h.0, h.1, u), DoubleRatio(h.1))
  {
    hide DoubleRatio, AddRatio;
    assert (2 * n + b) / 2 == n && (2 * n + b) % 2 == b;
  }

  // The bits of the scalar from the top: all 255 of them.
  method Ladder(x1: Fe, e: seq<byte>, ghost u: int) returns (x2: Fe, z2: Fe)
    requires |e| == 32 && Le(e) < EXP255
    requires Within(x1, TIGHT) && Cong(Value(x1), u)
    ensures Stands(x2, z2, LadderPair(Le(e), 255, u).0)
  {
    hide Stands, LadderPair, Cong, Value, Within, BitAnd, Le, Exp2;
    var x3, z3;
    x2, z2, x3, z3 := LadderStart(x1, u);
    TopOfScalar(e);
    var swap := 0;
    var pos := 254;
    while pos >= 0
      invariant -1 <= pos <= 254 && swap <= 1
      invariant Le(e) / Exp2(pos + 1) >= 0
      invariant Pending(x2, z2, x3, z3, swap, Le(e) / Exp2(pos + 1), 254 - pos, u)
    {
      BitOf(e, pos);
      var b := BitAnd(1, e[pos / 8] / Exp2(pos % 8));
      NextPrefix(Le(e), pos);
      x2, z2, x3, z3 := LadderBit(x1, x2, z2, x3, z3, swap, b, Le(e) / Exp2(pos + 1), 254 - pos, u);
      swap := b;
      pos := pos - 1;
    }
    ExpSmall();
    x2, z2, x3, z3 := CondSwap(x2, z2, x3, z3, swap);
  }

  method LadderStart(x1: Fe, ghost u: int) returns (x2: Fe, z2: Fe, x3: Fe, z3: Fe)
    requires Within(x1, TIGHT) && Cong(Value(x1), u)
    ensures Pending(x2, z2, x3, z3, 0, 0, 0, u)
  {
    hide Value, Within, Cong;
    x2 := One();
    z2 := Zero();
    x3 := x1;
    z3 := One();
    CongSelf(1, 1);
    CongSelf(0, 0);
  }

  lemma {:induction false} TopOfScalar(e: seq<byte>)
    requires Le(e) < EXP255
    ensures Le(e) / Exp2(255) == 0
  {
    hide *;
    PowTop();
    PowTwo(255);
  }

  lemma NextPrefix(n: nat, pos: nat)
    ensures n / Exp2(pos) >= 0 && n / Exp2(pos + 1) >= 0
    ensures n / Exp2(pos) == 2 * (n / Exp2(pos + 1)) + n / Exp2(pos) % 2
  {
    DivBounds(n, Exp2(pos));
    DivBounds(n, Exp2(pos + 1));
    DivTwice(n, Exp2(pos), 2);
    assert Exp2(pos + 1) == Exp2(pos) * 2;
  }

  method ToMontgomery(publicKey: seq<byte>) returns (x1: Fe)
    requires |publicKey| == 32
    ensures Within(x1, TIGHT) && Cong(Value(x1), MontgomeryX(Le(publicKey) % EXP255))
  {
    hide Value, Within, Cong, Le, Pow;
    x1 := FromBytes(publicKey);
    var tmp1 := One();
    ghost var y, k := Value(x1), Le(publicKey) % EXP255;
    var tmp0 := Add(x1, tmp1, TIGHT, TIGHT);
    tmp1 := Sub(tmp1, x1, TIGHT, TIGHT);
    WithinWeaken(tmp1, DOUBLE, LOOSE);
    ghost var t := Value(tmp1);
    tmp1 := Invert(tmp1);
    x1 := MulWithin(tmp0, tmp1, DOUBLE, TIGHT);
    MontgomeryChain(y, k, t, Value(tmp1), Value(x1));
  }

  lemma MontgomeryChain(y: int, k: int, t: int, i: int, x: int)
    requires Cong(y, k) && t == 1 - y && Cong(i, Pow(t, P - 2)) && Cong(x, (y + 1) * i)
    ensures Cong(x, MontgomeryX(k))
  {
    hide Cong, Pow;
    CongSelf(1, 1);
    CongAdd(1, 1, y, k);
    CongAdd(y, k, 1, 1);
    PowCong(t, 1 - k, P - 2);
    CongTrans(i, Pow(t, P - 2), Inv(1 - k));
    CongMul(y + 1, k + 1, i, Inv(1 - k));
    CongTrans(x, (y + 1) * i, MontgomeryX(k));
  }

  // The shared secret: x / z of the clamped scalar's multiple.
  ghost predicate IsSharedSecret(s: seq<byte>, publicKey: seq<byte>, scalar: nat) {
    var p := LadderPair(scalar, 255, MontgomeryX(Le(publicKey) % EXP255)).0;
    |s| == 32 && Le(s) == Residue(p.x * Inv(p.z))
  }

  // ed25519_key_exchange
  method Exchange(sharedSecret: array<byte>, publicKey: seq<byte>, privateKey: seq<byte>)
    requires sharedSecret.Length == 32 && |publicKey| == 32 && |privateKey| >= 32
    modifies sharedSecret
    ensures IsSharedSecret(sharedSecret[..], publicKey, Le(Ed25519.Clamp(privateKey)[..32]))
  {
    hide LadderPair, Cong, Value, Within, Le, Pow, MontgomeryX, Residue;
    var e := ClampKey(privateKey);
    var x1 := ToMontgomery(publicKey);
    ghost var u := MontgomeryX(Le(publicKey) % EXP255);
    Ed25519.ClampedScalar(privateKey);
    var x2, z2 := Ladder(x1, e, u);
    ghost var p, z := LadderPair(Le(e), 255, u).0, Value(z2);
    WithinWeaken(z2, TIGHT, LOOSE);
    z2 := Invert(z2);
    ghost var x := Value(x2);
    x2 := MulWithin(x2, z2, TIGHT, TIGHT);
    QuotientChain(x, z, Value(z2), Value(x2), p);
    WithinWeaken(x2, TIGHT, MEDIUM);
    ToBytes(sharedSecret, 0, x2);
    ResidueIsMod(Value(x2));
    assert sharedSecret[0..32] == sharedSecret[..];
  }

  lemma {:induction false} QuotientChain(x: int, z: int, i: int, r: int, p: Ratio)
    requires Cong(x, p.x) && Cong(z, p.z) && Cong(i, Pow(z, P - 2)) && Cong(r, x * i)
    ensures Residue(r) == Residue(p.x * Inv(p.z))
  {
    hide Cong, Pow, Residue;
    PowCong(z, p.z, P - 2);
    CongTrans(i, Pow(z, P - 2), Inv(p.z));
    CongMul(x, p.x, i, Inv(p.z));
    CongTrans(r, x * i, p.x * Inv(p.z));
    ResidueCong(r, p.x * Inv(p.z));
  }

  // Lines 21 to 27: a copy of the private scalar, clamped again.
  method ClampKey(privateKey: seq<byte>) returns (e: seq<byte>)
    requires |privateKey| >= 32
    ensures e == Ed25519.Clamp(privateKey)[..32] && |e| == 32
  {
    hide BitAnd, BitOr;
    var a := new byte[32];
    forall i | 0 <= i < 32 {
      a[i] := privateKey[i];
    }
    Ed25519.ClampLow(a[0]);
    Ed25519.ClampHigh(a[31]);
    a[0] := BitAnd(248, a[0]);
    a[31] := BitAnd(63, a[31]);
    a[31] := BitOr(a[31], 64);
    e := a[..];
    assert e == Ed25519.Clamp(privateKey)[..32];
  }

  // ----- what the shared secret is -----

  lemma MontgomeryCong(y: int, y': int)
    requires Cong(y, y')
    ensures Cong(MontgomeryX(y), MontgomeryX(y'))
  {
    hide Cong, Pow;
    CongSelf(1, 1);
    CongAdd(y, y', 1, 1);
    CongAdd(1, 1, y, y');
    PowCong(1 - y, 1 - y', P - 2);
    CongMul(y + 1, y' + 1, Inv(1 - y), Inv(1 - y'));
  }

  // For a public key that stands for a point of the curve, the shared secret is the Montgomery coordinate of the
  // scalar's multiple of the point. That holds of every point, also where the coordinate is zero or infinite.
  lemma {:induction false} SharedSecretIsMultiple(s: seq<byte>, publicKey: seq<byte>, scalar: nat, A: Point)
    requires CurveFacts() && OnCurve(A) && scalar < EXP255
    requires Cong(Le(publicKey) % EXP255, A.y) && IsSharedSecret(s, publicKey, scalar)
    ensures |s| == 32 && Le(s) == Residue(MontgomeryX(Multiple(scalar, A).y))
  {
    hide CurveFacts, OnCurve, Cong, Le, LadderPair, MontgomeryX, Residue, Multiple, Inv;
    var y := Le(publicKey) % EXP255;
    MontgomeryCong(y, A.y);
    PowTop();
    PowTwo(255);
    var p := LadderPair(scalar, 255, MontgomeryX(y)).0;
    LadderIsMultiple(A, MontgomeryX(y), scalar, 255);
    ResidueCong(p.x * Inv(p.z), MontgomeryX(Multiple(scalar, A).y));
  }

  // The public key of a scalar a, exchanged with a scalar b: the coordinate of b a B.
  lemma {:induction false} SecretOfKey(s: seq<byte>, publicKey: seq<byte>, a: nat, b: nat, B: Point)
    requires CurveFacts() && OnCurve(B) && b < EXP255
    requires PointEncoding.Encodes(publicKey, Multiple(a, B)) && IsSharedSecret(s, publicKey, b)
    ensures |s| == 32 && Le(s) == Residue(MontgomeryX(Multiple(a * b, B).y))
  {
    hide CurveFacts, OnCurve, Cong, Le, IsSharedSecret, MontgomeryX, Residue, Multiple;
    var A := Multiple(a, B);
    MultipleOnCurve(a, B);
    OnCurveMeaning(A);
    LowOfEncoding(Le(publicKey), A);
    CongSelf(Le(publicKey) % EXP255, A.y);
    SharedSecretIsMultiple(s, publicKey, b, A);
    MultipleTimes(b, a, B);
    assert b * a == a * b;
  }

  lemma LowOfEncoding(n: nat, A: Point)
    requires 0 <= A.y < P && n == A.y + EXP255 * (A.x % 2)
    ensures n % EXP255 == A.y
  {
    DivModUnique(n, EXP255, A.x % 2, A.y);
  }

  // Clamping what is clamped changes nothing.
  lemma ClampTwice(s: seq<byte>)
    requires |s| >= 32
    ensures Ed25519.Clamp(Ed25519.Clamp(s)) == Ed25519.Clamp(s)
  {
  }

  // Two parties with generated key pairs, each taking the other's public key, get the same secret, for every two seeds.
  method ExchangeBothWays(seedA: seq<byte>, seedB: seq<byte>, base: seq<seq<Precomp>>, ghost Bi: seq<Precomp>,
                          ghost B: Point)
    returns (secretA: seq<byte>, secretB: seq<byte>)
    requires Ed25519.Setting(base, Bi, B) && |seedA| == |seedB| == 32
    ensures |secretA| == 32 && secretA == secretB
  {
    hide Ed25519.Setting, Ed25519.Clamp, Ed25519.Digest, PointEncoding.Encodes, IsSharedSecret, Multiple, Le,
          CurveFacts, OnCurve;
    var publicA, privateA := new byte[32], new byte[64];
    Ed25519.CreateKeypair(publicA, privateA, seedA, base, Bi, B);
    var publicB, privateB := new byte[32], new byte[64];
    Ed25519.CreateKeypair(publicB, privateB, seedB, base, Bi, B);
    var shared := new byte[32];
    Exchange(shared, publicB[..], privateA[..]);
    secretA := shared[..];
    Exchange(shared, publicA[..], privateB[..]);
    secretB := shared[..];
    SecretsAgree(secretA, secretB, publicA[..], publicB[..], privateA[..], privateB[..], seedA, seedB, base, Bi, B);
  }

  lemma {:induction false} SecretsAgree(secretA: seq<byte>, secretB: seq<byte>, publicA: seq<byte>, publicB: seq<byte>,
                                        privateA: seq<byte>, privateB: seq<byte>, seedA: seq<byte>, seedB: seq<byte>,
                                        base: seq<seq<Precomp>>, Bi: seq<Precomp>, B: Point)
    requires Ed25519.Setting(base, Bi, B)
    requires privateA == Ed25519.Clamp(Ed25519.Digest(seedA)) && privateB == Ed25519.Clamp(Ed25519.Digest(seedB))
    requires PointEncoding.Encodes(publicA, Multiple(Le(privateA[..32]), B))
    requires PointEncoding.Encodes(publicB, Multiple(Le(privateB[..32]), B))
    requires IsSharedSecret(secretA, publicB, Le(Ed25519.Clamp(privateA)[..32]))
    requires IsSharedSecret(secretB, publicA, Le(Ed25519.Clamp(privateB)[..32]))
    ensures |secretA| == 32 && secretA == secretB
  {
    hide Ed25519.Clamp, Ed25519.Digest, PointEncoding.Encodes, IsSharedSecret, Multiple, Le, CurveFacts, OnCurve,
          MontgomeryX, Residue, ScalarMult.BaseTable, ScalarMult.OddPrecomp;
    ClampTwice(Ed25519.Digest(seedA));
    ClampTwice(Ed25519.Digest(seedB));
    Ed25519.ClampedScalar(Ed25519.Digest(seedA));
    Ed25519.ClampedScalar(Ed25519.Digest(seedB));
    var a, b := Le(privateA[..32]), Le(privateB[..32]);
    SecretOfKey(secretA, publicB, b, a, B);
    SecretOfKey(secretB, publicA, a, b, B);
    assert a * b == b * a;
    LeInjective(secretA, secretB);
  }
}
