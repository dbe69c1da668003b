// ntfe/ed25519/ge.c and fe.c: points as 32 bytes, and back. The encoding is that of section 5.1.2 of RFC 8032:
// y in 255 bits, little-endian, with the low bit of x on top.
module PointEncoding {
  import opened Bytes
  import opened Congruence
  import opened Limbs
  import opened Packing
  import opened FieldBytes
  import opened FieldPower
  import opened FieldSelect
  import opened EdwardsCurve
  import opened GroupElements

  ghost predicate Encodes(s: seq<byte>, p: Point) {
    |s| == 32 && Le(s) == p.y + EXP255 * (p.x % 2)
  }

  // ----- fe_isnegative and fe_isnonzero -----

  lemma CongZero(a: int)
    ensures Cong(a, 0) <==> a % P == 0
  {
    hide Cong;
    CongSameMod(a, 0);
  }

  // The low bit of the canonical representative.
  method IsNegative(f: Fe) returns (r: byte)
    requires Within(f, MEDIUM)
    ensures r as int == Residue(Value(f)) % 2
  {
    hide Within, Value;
    var s := new byte[32];
    ToBytes(s, 0, f);
    ResidueIsMod(Value(f));
    ExpSmall();
    BitAndMask(s[0], 1);
    assert s[0..32] == s[..];
    r := BitAnd(1, s[0]);
  }

  method IsNonzero(f: Fe) returns (r: bool)
    requires Within(f, MEDIUM)
    ensures r <==> !Cong(Value(f), 0)
  {
    hide Within, Value, Le, Cong, BitOr;
    var s := new byte[32];
    ToBytes(s, 0, f);
    assert s[0..32] == s[..];
    ghost var bytes := s[..];
    CongZero(Value(f));
    assert Le(bytes) == 0 <==> Cong(Value(f), 0);
    var acc: byte := s[0];
    var i := 1;
    while i < 32
      invariant 1 <= i <= 32 && s[..] == bytes
      invariant acc == 0 <==> forall j :: 0 <= j < i ==> bytes[j] == 0
    {
      OrByte(acc, s[i]);
      OrZero(acc, s[i]);
      assert bytes[i] == s[i];
      acc := BitOr(acc, s[i]);
      i := i + 1;
    }
    AllZero(bytes);
    r := acc != 0;
  }

  lemma {:induction false} OrZero(a: nat, b: nat)
    ensures BitOr(a, b) == 0 <==> a == 0 && b == 0
    decreases a + b
  {
    if a != 0 || b != 0 {
      OrZero(a / 2, b / 2);
    }
  }

  lemma {:induction false} OrByte(a: nat, b: nat)
    requires a < 256 && b < 256
    ensures BitOr(a, b) < 256
  {
    ExpSmall();
    OrBound(a, b, 8);
  }

  lemma {:induction false} OrBound(a: nat, b: nat, k: nat)
    requires a < Exp2(k) && b < Exp2(k)
    ensures BitOr(a, b) < Exp2(k)
    decreases k
  {
    if k > 0 {
      OrBound(a / 2, b / 2, k - 1);
    }
  }

  lemma {:induction false} AllZero(s: seq<byte>)
    ensures Le(s) == 0 <==> forall j :: 0 <= j < |s| ==> s[j] == 0
    decreases s
  {
    if s != [] {
      AllZero(s[1..]);
      assert s == [s[0]] + s[1..];
    }
  }

  // ----- encoding -----

  lemma AffineCoordinate(X: int, Z: int, recip: int, c: int, x: int)
    requires Fermat() && !Cong(Z, 0) && Cong(X, x * Z) && Cong(recip, Inv(Z)) && Cong(c, X * recip) && 0 <= x < P
    ensures Residue(c) == x
  {
    hide *;
    InvCancels(Z);
    CongMul(X, x * Z, recip, Inv(Z));
    CongTimes(Z * Inv(Z), 1, x);
    assert (x * Z) * Inv(Z) == x * (Z * Inv(Z));
    CongTrans(c, X * recip, x * (Z * Inv(Z)));
    CongTrans(c, x * (Z * Inv(Z)), x);
    ResidueUnique(c, x);
  }

  method AffineToBytes(s: array<byte>, at: nat, X: Fe, Y: Fe, Z: Fe, ghost p: Point)
    requires Fermat() && at + 32 <= s.Length
    requires Within(X, TIGHT) && Within(Y, TIGHT) && Within(Z, TIGHT)
    requires Scaled(p, Value(X), Value(Y), Value(Z)) && 0 <= p.x < P && 0 <= p.y < P
    modifies s
    ensures Encodes(s[at..at + 32], p)
    ensures s[..at] == old(s[..at]) && s[at + 32..] == old(s[at + 32..])
  {
    hide Fermat, Value, Within, Cong, Le, Pow, BitXor;
    WithinWeaken(Z, TIGHT, LOOSE);
    var recip := Invert(Z);
    var x := MulWithin(X, recip, TIGHT, TIGHT);
    var y := MulWithin(Y, recip, TIGHT, TIGHT);
    ScaledMeaning(p, Value(X), Value(Y), Value(Z));
    AffineCoordinate(Value(X), Value(Z), Value(recip), Value(x), p.x);
    AffineCoordinate(Value(Y), Value(Z), Value(recip), Value(y), p.y);
    WithinWeaken(x, TIGHT, MEDIUM);
    WithinWeaken(y, TIGHT, MEDIUM);
    ToBytes(s, at, y);
    ResidueIsMod(Value(y));
    var sign := IsNegative(x);
    ghost var before := s[at..at + 32];
    TopBitSet(before, sign);
    s[at + 31] := BitXor(s[at + 31], sign * 128);
    assert s[at..at + 32] == before[31 := s[at + 31]];
  }

  lemma {:induction false} TopBitSet(s: seq<byte>, sign: byte)
    requires |s| == 32 && Le(s) < P && sign <= 1
    ensures BitXor(s[31], sign * 128) < 256
    ensures Le(s[31 := BitXor(s[31], sign * 128)]) == Le(s) + EXP255 * sign
  {
    hide Le, BitXor, Exp2;
    TopBitClear(s);
    XorTop(s[31], sign);
    var top: byte := s[31] + 128 * sign;
    TopByte(s, top);
  }

  lemma {:induction false} XorTop(a: byte, sign: byte)
    requires a < 128 && sign <= 1
    ensures BitXor(a, sign * 128) == a + 128 * sign
  {
    ExpSmall();
    XorDisjoint(a, sign, 7);
  }

  lemma TopByte(s: seq<byte>, top: byte)
    requires |s| == 32 && top >= s[31] && (top - s[31]) % 128 == 0
    ensures Le(s[31 := top]) == Le(s) + EXP255 * ((top - s[31]) / 128)
  {
    hide *;
    var low := s[..31];
    assert s == low + [s[31]] && s[31 := top] == low + [top];
    LeSplit(low, [s[31]]);
    LeSplit(low, [top]);
    LeOne(s[31]);
    LeOne(top);
    Exp248();
    TimesSum(Exp2(8 * 31), s[31], top - s[31]);
  }

  lemma TimesSum(m: int, a: int, b: int)
    ensures m * (a + b) == m * a + m * b
  {
  }

  // ge_p3_tobytes
  method P3ToBytes(s: array<byte>, at: nat, h: P3, ghost p: Point)
    requires Fermat() && at + 32 <= s.Length && IsP3(h, p) && OnCurve(p)
    modifies s
    ensures Encodes(s[at..at + 32], p)
    ensures s[..at] == old(s[..at]) && s[at + 32..] == old(s[at + 32..])
  {
    hide Fermat, Value, Within, Cong;
    OnCurveMeaning(p);
    AffineToBytes(s, at, h.X, h.Y, h.Z, p);
  }

  // ge_tobytes
  method P2ToBytes(s: array<byte>, at: nat, h: P2, ghost p: Point)
    requires Fermat() && at + 32 <= s.Length && IsP2(h, p) && OnCurve(p)
    modifies s
    ensures Encodes(s[at..at + 32], p)
    ensures s[..at] == old(s[..at]) && s[at + 32..] == old(s[at + 32..])
  {
    hide Fermat, Value, Within, Cong;
    OnCurveMeaning(p);
    AffineToBytes(s, at, h.X, h.Y, h.Z, p);
  }

  // The encoding of a point is unique, and determines the point.
  lemma EncodesUnique(s: seq<byte>, t: seq<byte>, p: Point)
    requires Encodes(s, p) && Encodes(t, p)
    ensures s == t
  {
    LeInjective(s, t);
  }
}
