// ntfe/ed25519/fe.c: fe_cmov and fe_cswap, which choose without branching by masking an exclusive or.
module FieldSelect {
  import opened Bytes
  import opened Limbs

  // The 32 bits of an int32 as a number, and back (two's complement).
  function Word(x: int32): (w: nat)
    ensures w < 0x1_0000_0000
  {
    x as int % 0x1_0000_0000
  }

  function Signed(w: nat): int32
    requires w < 0x1_0000_0000
  {
    (if w < 0x8000_0000 then w else w - 0x1_0000_0000) as int32
  }

  lemma SignedWord(x: int32)
    ensures Signed(Word(x)) == x
  {
  }

  lemma {:induction false} XorUndo(a: nat, b: nat)
    ensures BitXor(a, BitXor(a, b)) == b && BitXor(b, BitXor(a, b)) == a
    decreases a + b
  {
    if a != 0 || b != 0 {
      XorUndo(a / 2, b / 2);
      XorHalves(a, b);
    }
  }

  lemma {:induction false} XorHalves(a: nat, b: nat)
    ensures BitXor(a, b) % 2 == (if a % 2 != b % 2 then 1 else 0)
    ensures BitXor(a, b) / 2 == BitXor(a / 2, b / 2)
  {
  }

  lemma {:induction false} XorZero(a: nat)
    ensures BitXor(a, 0) == a
    decreases a
  {
    if a != 0 {
      XorZero(a / 2);
    }
  }

  lemma {:induction false} XorBound(a: nat, b: nat, k: nat)
    requires a < Exp2(k) && b < Exp2(k)
    ensures BitXor(a, b) < Exp2(k)
    decreases k
  {
    if k > 0 {
      XorBound(a / 2, b / 2, k - 1);
    }
  }

  // Exclusive or of numbers that share no bit position is their sum.
  lemma {:induction false} XorDisjoint(a: nat, b: nat, k: nat)
    requires a < Exp2(k)
    ensures BitXor(a, Exp2(k) * b) == a + Exp2(k) * b
    decreases k
  {
    if k == 0 {
      ZeroXor(b);
    } else {
      var c := Exp2(k - 1) * b;
      assert Exp2(k) * b == 2 * c;
      XorDisjoint(a / 2, b, k - 1);
    }
  }

  lemma {:induction false} ZeroXor(a: nat)
    ensures BitXor(0, a) == a
    decreases a
  {
    if a != 0 {
      ZeroXor(a / 2);
    }
  }

  // The two numbers differ exactly when their exclusive or is not zero.
  lemma {:induction false} XorEqual(a: nat, b: nat)
    ensures BitXor(a, b) == 0 <==> a == b
  {
    XorUndo(a, b);
    XorZero(a);
    if a == b {
      XorSelf(a);
    }
  }

  lemma {:induction false} XorSelf(a: nat)
    ensures BitXor(a, a) == 0
    decreases a
  {
    if a != 0 {
      XorSelf(a / 2);
    }
  }

  // (unsigned int) (- (int) b)
  function Mask(b: nat): (m: nat)
    requires b <= 1
    ensures m < 0x1_0000_0000
  {
    (0x1_0000_0000 - b) % 0x1_0000_0000
  }

  lemma {:induction false} MaskedWord(b: nat, x: nat)
    requires b <= 1 && x < 0x1_0000_0000
    ensures BitAnd(Mask(b), x) == if b == 1 then x else 0
  {
    hide BitAnd, Exp2;
    ExpSmall();
    BitAndMask(x, 32);
    BitAndZero(x);
  }

  // One limb of fe_cmov and fe_cswap: x = (f ^ g) & mask.
  method MaskedDifference(f: int32, g: int32, b: nat) returns (x: nat)
    requires b <= 1
    ensures x == (if b == 1 then BitXor(Word(f), Word(g)) else 0) < 0x1_0000_0000
  {
    ExpSmall();
    XorBound(Word(f), Word(g), 32);
    x := BitXor(Word(f), Word(g));
    MaskedWord(b, x);
    x := BitAnd(Mask(b), x);
  }

  method MoveLimb(f: int32, g: int32, b: nat) returns (h: int32)
    requires b <= 1
    ensures h == if b == 1 then g else f
  {
    hide BitXor;
    var x := MaskedDifference(f, g, b);
    XorUndo(Word(f), Word(g));
    XorZero(Word(f));
    SignedWord(f);
    SignedWord(g);
    h := Signed(BitXor(Word(f), x));
  }

  method SwapLimb(f: int32, g: int32, b: nat) returns (f': int32, g': int32)
    requires b <= 1
    ensures (f', g') == if b == 1 then (g, f) else (f, g)
  {
    hide BitXor;
    var x := MaskedDifference(f, g, b);
    XorUndo(Word(f), Word(g));
    XorZero(Word(f));
    XorZero(Word(g));
    SignedWord(f);
    SignedWord(g);
    f' := Signed(BitXor(Word(f), x));
    g' := Signed(BitXor(Word(g), x));
  }

  // fe_cmov: g when b is 1, f when b is 0
  method Move(f: Fe, g: Fe, b: nat) returns (h: Fe)
    requires b <= 1
    ensures h == if b == 1 then g else f
  {
    var h0 := MoveLimb(f.h0, g.h0, b);
    var h1 := MoveLimb(f.h1, g.h1, b);
    var h2 := MoveLimb(f.h2, g.h2, b);
    var h3 := MoveLimb(f.h3, g.h3, b);
    var h4 := MoveLimb(f.h4, g.h4, b);
    var h5 := MoveLimb(f.h5, g.h5, b);
    var h6 := MoveLimb(f.h6, g.h6, b);
    var h7 := MoveLimb(f.h7, g.h7, b);
    var h8 := MoveLimb(f.h8, g.h8, b);
    var h9 := MoveLimb(f.h9, g.h9, b);
    h := Fe(h0, h1, h2, h3, h4, h5, h6, h7, h8, h9);
  }

  // fe_cswap
  method Swap(f: Fe, g: Fe, b: nat) returns (f': Fe, g': Fe)
    requires b <= 1
    ensures (f', g') == if b == 1 then (g, f) else (f, g)
  {
    var f0, g0 := SwapLimb(f.h0, g.h0, b);
    var f1, g1 := SwapLimb(f.h1, g.h1, b);
    var f2, g2 := SwapLimb(f.h2, g.h2, b);
    var f3, g3 := SwapLimb(f.h3, g.h3, b);
    var f4, g4 := SwapLimb(f.h4, g.h4, b);
    var f5, g5 := SwapLimb(f.h5, g.h5, b);
    var f6, g6 := SwapLimb(f.h6, g.h6, b);
    var f7, g7 := SwapLimb(f.h7, g.h7, b);
    var f8, g8 := SwapLimb(f.h8, g.h8, b);
    var f9, g9 := SwapLimb(f.h9, g.h9, b);
    f' := Fe(f0, f1, f2, f3, f4, f5, f6, f7, f8, f9);
    g' := Fe(g0, g1, g2, g3, g4, g5, g6, g7, g8, g9);
  }
}
