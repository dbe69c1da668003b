// Residues modulo the Ed25519 field prime, and congruence modulo it.
//
// Stepped definitions. A definition with products or a remainder by the prime in it is expensive wherever the verifier
// opens it, and hiding it in every proof does not help in contracts. Such definitions, here and in the modules above,
// are therefore written in two parts: X(args) is XSteps(args, 4), and XSteps(args, n) calls itself with n - 1 until n
// is 0, where the meaning stands. The verifier opens a recursive function once or twice on its own, so it does not get
// there, and X is an abstract relation; the lemma XMeaning walks down the four steps and states the meaning for proofs
// that need it. XSteps has no other use, and 4 no other significance.
module Congruence {

  // p = 2^255 - 19
  const P: int := 0x7fffffffffffffffffffffffffffffffffffffffffffffffffffffffffffffed

  // a and b differ by a multiple of p; a stepped definition, used only in CongWitness and CongElim.
  ghost predicate Cong(a: int, b: int) {
    CongSteps(a, b, 4)
  }

  ghost predicate CongSteps(a: int, b: int, n: nat)
    decreases n, a, b
  {
    if n == 0 then (a - b) % P == 0 else CongSteps(a, b, n - 1)
  }

  lemma CongMeaning(a: int, b: int)
    ensures Cong(a, b) <==> (a - b) % P == 0
  {
    assert CongSteps(a, b, 4) == CongSteps(a, b, 3);
    assert CongSteps(a, b, 3) == CongSteps(a, b, 2);
    assert CongSteps(a, b, 2) == CongSteps(a, b, 1);
    assert CongSteps(a, b, 1) == CongSteps(a, b, 0);
  }

  lemma CongWitness(a: int, b: int, q: int)
    requires a == b + P * q
    ensures Cong(a, b)
  {
    CongMeaning(a, b);
    assert (P * q) % P == 0;
  }

  lemma CongElim(a: int, b: int) returns (q: int)
    requires Cong(a, b)
    ensures a == b + P * q
  {
    CongMeaning(a, b);
    q := (a - b) / P;
  }

  lemma CongSym(a: int, b: int)
    requires Cong(a, b)
    ensures Cong(b, a)
  {
    hide *;
    var q := CongElim(a, b);
    CongWitness(b, a, -q);
  }

  lemma CongTrans(a: int, b: int, c: int)
    requires Cong(a, b) && Cong(b, c)
    ensures Cong(a, c)
  {
    hide *;
    var q := CongElim(a, b);
    var r := CongElim(b, c);
    CongWitness(a, c, q + r);
  }

  lemma CongAdd(a: int, b: int, c: int, d: int)
    requires Cong(a, b) && Cong(c, d)
    ensures Cong(a + c, b + d) && Cong(a - c, b - d)
  {
    hide *;
    var q := CongElim(a, b);
    var r := CongElim(c, d);
    CongWitness(a + c, b + d, q + r);
    CongWitness(a - c, b - d, q - r);
  }

  lemma CongMul(a: int, b: int, c: int, d: int)
    requires Cong(a, b) && Cong(c, d)
    ensures Cong(a * c, b * d)
  {
    hide *;
    var q := CongElim(a, b);
    var r := CongElim(c, d);
    ProductWitness(b, d, P, q, r);
    CongWitness(a * c, b * d, q * d + b * r + P * (q * r));
  }

  lemma ProductWitness(b: int, d: int, p: int, q: int, r: int)
    ensures (b + p * q) * (d + p * r) == b * d + p * (q * d + b * r + p * (q * r))
  {
  }

  lemma CongSelf(a: int, b: int)
    requires a == b
    ensures Cong(a, b)
  {
    CongWitness(a, b, 0);
  }

  lemma CongTimes(a: int, b: int, c: int)
    requires Cong(a, b)
    ensures Cong(a * c, b * c) && Cong(c * a, c * b)
  {
    hide *;
    CongSelf(c, c);
    CongMul(a, b, c, c);
    CongMul(c, c, a, b);
  }

  // The canonical representative.
  ghost function Residue(a: int): (r: int)
    ensures 0 <= r < P && Cong(r, a) && Cong(a, r)
  {
    ResidueSteps(a, 4)
  }

  ghost function ResidueSteps(a: int, n: nat): (r: int)
    ensures 0 <= r < P && Cong(r, a) && Cong(a, r)
    decreases n, a
  {
    if n == 0 then
      CongMod(a);
      a % P
    else ResidueSteps(a, n - 1)
  }

  lemma ResidueIsMod(a: int)
    ensures Residue(a) == a % P
  {
    assert ResidueSteps(a, 4) == ResidueSteps(a, 3);
    assert ResidueSteps(a, 3) == ResidueSteps(a, 2);
    assert ResidueSteps(a, 2) == ResidueSteps(a, 1);
    assert ResidueSteps(a, 1) == ResidueSteps(a, 0);
  }

  lemma ResidueUnique(a: int, r: int)
    requires Cong(a, r) && 0 <= r < P
    ensures Residue(a) == r
  {
    CongTrans(Residue(a), a, r);
    CongUnique(Residue(a), r);
  }

  lemma ResidueCong(a: int, b: int)
    requires Cong(a, b)
    ensures Residue(a) == Residue(b)
  {
    CongTrans(a, b, Residue(b));
    ResidueUnique(a, Residue(b));
  }

  // The canonical representative is congruent, and congruent canonical values are equal.
  lemma CongMod(a: int)
    ensures Cong(a % P, a) && Cong(a, a % P)
  {
    CongWitness(a, a % P, a / P);
    CongSym(a, a % P);
  }

  lemma CongUnique(a: int, b: int)
    requires Cong(a, b) && 0 <= a < P && 0 <= b < P
    ensures a == b
  {
    hide *;
    var q := CongElim(a, b);
  }

  lemma CongSameMod(a: int, b: int)
    ensures Cong(a, b) <==> a % P == b % P
  {
    hide Cong;
    CongMod(a);
    CongMod(b);
    if Cong(a, b) {
      CongTrans(a % P, a, b);
      CongTrans(a % P, b, b % P);
      CongUnique(a % P, b % P);
    } else if a % P == b % P {
      CongTrans(a, a % P, b);
    }
  }

  ghost function Pow(z: int, e: nat): int
    decreases e, z
  {
    if e == 0 then 1 else z * Pow(z, e - 1)
  }

  lemma {:induction false} PowAdd(z: int, d: nat, e: nat)
    ensures Pow(z, d + e) == Pow(z, d) * Pow(z, e)
    decreases d
  {
    if d > 0 {
      PowAdd(z, d - 1, e);
      assert d - 1 + e == d + e - 1;
    }
  }

  lemma {:induction false} PowProduct(y: int, z: int, e: nat)
    ensures Pow(y * z, e) == Pow(y, e) * Pow(z, e)
    decreases e
  {
    if e > 0 {
      PowProduct(y, z, e - 1);
    }
  }

  lemma {:induction false} PowCong(y: int, z: int, e: nat)
    requires Cong(y, z)
    ensures Cong(Pow(y, e), Pow(z, e))
    decreases e
  {
    hide Cong;
    if e == 0 {
      CongSelf(Pow(y, e), Pow(z, e));
    } else {
      PowCong(y, z, e - 1);
      CongMul(y, z, Pow(y, e - 1), Pow(z, e - 1));
    }
  }
}
