// Where decoding and verification meet RFC 8032, and where they are laxer. The references are sections 5.1.3 and
// 5.1.7: 32 bytes decode only if a point of the curve is encoded by exactly them, and a signature is valid only if
// both its points decode and S is below l. The C code tests less; each theorem says exactly how much.
module Conformance {
  import opened Bytes
  import opened Packing
  import opened Congruence
  import opened EdwardsCurve
  import opened PointMultiples
  import opened PointEncoding
  import opened PointDecoding
  import opened ScalarLimbs
  import opened ScalarMult
  import opened Ed25519
  import opened GroupElements
  import Sha512Spec

  // ----- decoding -----

  // Section 5.1.3: the bytes are the encoding of a point.
  ghost predicate Strict(s: seq<byte>) {
    exists p :: OnCurve(p) && Encodes(s, p)
  }

  // What the C code does not look at: whether y is reduced, and the sign of a zero x, which goes with y = 1 and y = -1.
  ghost predicate Canonical(s: seq<byte>) {
    var y := Le(s) % EXP255;
    y < P && !(Le(s) / EXP255 == 1 && (y == 1 || y == P - 1))
  }

  // The code decodes 32 bytes exactly when y is Decodable. The bytes encode a point if and only if the code decodes
  // them and they are canonical.
  lemma {:induction false} StrictExactly(s: seq<byte>)
    requires Fermat() && |s| == 32
    ensures Strict(s) <==> Decodable(Le(s) % EXP255) && Canonical(s)
  {
    hide Fermat, OnCurve, CurveEquation, Encodes, Le;
    var y := Le(s) % EXP255;
    if Strict(s) {
      var p :| OnCurve(p) && Encodes(s, p);
      StrictIsCanonical(s, p);
    }
    if Decodable(y) && Canonical(s) {
      var x :| CurveEquation(x, y);
      var p := CanonicalIsStrict(s, x);
      assert Strict(s);
    }
  }

  lemma {:induction false} StrictIsCanonical(s: seq<byte>, p: Point)
    requires Fermat() && OnCurve(p) && Encodes(s, p)
    ensures Decodable(Le(s) % EXP255) && Canonical(s)
  {
    hide Fermat, OnCurve, CurveEquation, Encodes, Le, Cong;
    EncodedDecodable(s, p);
    OnCurveMeaning(p);
    if p.y == 1 || p.y == P - 1 {
      UnitSquare(p.y);
      ZeroX(p.x, p.y);
      CongUnique(p.x, 0);
    }
  }

  // Of the two roots x and -x, one has the low bit the encoding asks for.
  lemma {:induction false} CanonicalIsStrict(s: seq<byte>, x: int) returns (p: Point)
    requires Fermat() && |s| == 32
    requires CurveEquation(x, Le(s) % EXP255) && Canonical(s)
    ensures OnCurve(p) && Encodes(s, p)
  {
    hide Fermat, OnCurve, CurveEquation, Le, Cong, Residue;
    var y, sign, r := Le(s) % EXP255, Le(s) / EXP255, Residue(x);
    TopBit(s);
    CongSelf(y, y);
    CurveCong(x, y, r, y);
    if r % 2 == sign {
      p := Point(r, y);
    } else {
      if r == 0 {
        CongSelf(0, 0);
        ZeroX(0, y);
        UnitRoots(y);
      }
      OppositeOnCurve(r, -r, y);
      FullTurn(r);
      CurveCong(-r, y, P - r, y);
      p := Point(P - r, y);
    }
    OnCurveMeaning(p);
  }

  // x = 0 goes with y = 1 and y = -1 only.
  lemma ZeroX(x: int, y: int)
    requires Fermat() && CurveEquation(x, y)
    ensures Cong(x, 0) <==> Cong(y * y, 1)
  {
    hide *;
    RatioEquation(x, y);
    DenominatorNonzero(y);
    var v, u := D * (y * y) + 1, y * y - 1;
    CongDifference(y * y, 1);
    if Cong(x, 0) {
      CongTimes(x, 0, v * x);
      assert (v * x) * x == v * (x * x);
      CongSym(v * (x * x), u);
      CongTrans(u, v * (x * x), 0);
    }
    if Cong(u, 0) {
      CongTrans(v * (x * x), u, 0);
      ZeroFactor(v, x * x);
      ZeroFactor(x, x);
    }
  }

  lemma UnitSquare(y: int)
    requires y == 1 || y == P - 1
    ensures Cong(y * y, 1)
  {
    hide *;
    CongWitness(y, if y == 1 then 1 else -1, if y == 1 then 0 else 1);
    CongMul(y, if y == 1 then 1 else -1, y, if y == 1 then 1 else -1);
  }

  lemma UnitRoots(y: int)
    requires Fermat() && Cong(y * y, 1) && 0 <= y < P
    ensures y == 1 || y == P - 1
  {
    hide Fermat, Cong;
    RootOfUnity(y);
    if Cong(y, 1) {
      CongUnique(y, 1);
    } else {
      CongWitness(-1, P - 1, -1);
      CongTrans(y, -1, P - 1);
      CongUnique(y, P - 1);
    }
  }

  // n as k little-endian bytes
  ghost function Little(n: nat, k: nat): (s: seq<byte>)
    ensures |s| == k
    decreases k
  {
    if k == 0 then [] else [n % 256] + Little(n / 256, k - 1)
  }

  lemma {:induction false} LittleValue(n: nat, k: nat)
    requires n < Exp2(8 * k)
    ensures Le(Little(n, k)) == n
    decreases k
  {
    if k > 0 {
      ExpSmall();
      ExpAdd(8, 8 * (k - 1));
      LittleValue(n / 256, k - 1);
      assert Little(n, k)[1..] == Little(n / 256, k - 1);
    }
  }

  lemma ThirtyTwoBytes()
    ensures Exp2(8 * 32) == 2 * EXP255
  {
    Exp248();
    ExpSmall();
    ExpAdd(8 * 31, 8);
  }

  // p itself stands for y = 0 and is decoded, though no point has this encoding.
  lemma UnreducedDecoded()
    ensures var s := Little(P, 32);
            Le(s) == P && Decodable(Le(s) % EXP255) && !Strict(s)
  {
    hide CurveEquation, Exp2, Little;
    ThirtyTwoBytes();
    LittleValue(P, 32);
    RootAtZero();
    forall p | OnCurve(p) ensures !Encodes(Little(P, 32), p) {
      OnCurveMeaning(p);
    }
  }

  lemma RootAtZero()
    ensures CurveEquation(ROOT, P)
  {
    hide *;
    Constants();
    CongSelf(0, 0);
    CongAdd(0, 0, ROOT * ROOT, -1);
    CurveMeaning(ROOT, 0);
    assert (ROOT * 0) * (ROOT * 0) == 0;
    CongWitness(0, P, -1);
    CongSelf(ROOT, ROOT);
    CurveCong(ROOT, 0, ROOT, P);
  }

  // y = 1 with the sign bit set is decoded to the neutral element, whose encoding has it clear.
  lemma SignedZeroDecoded()
    ensures var s := Little(EXP255 + 1, 32);
            Le(s) == EXP255 + 1 && Decodable(Le(s) % EXP255) && (Fermat() ==> !Strict(s))
  {
    hide CurveEquation, Exp2, Little, Fermat, OnCurve;
    ThirtyTwoBytes();
    LittleValue(EXP255 + 1, 32);
    OriginOnCurve();
    OnCurveMeaning(ORIGIN);
    if Fermat() {
      StrictExactly(Little(EXP255 + 1, 32));
    }
  }

  // ----- keys and signatures -----

  // Section 5.1.5: the secret scalar, bits 3 to 253 of the hashed seed with bit 254 set.
  ghost function SecretScalar(seed: seq<byte>): nat {
    EXP254 + 8 * (Le(Sha512Spec.Sha512(seed)[..32]) % EXP254 / 8)
  }

  ghost predicate RfcKey(publicKey: seq<byte>, seed: seq<byte>, B: Point) {
    Encodes(publicKey, Multiple(SecretScalar(seed), B))
  }

  // Section 5.1.6
  ghost predicate RfcSignature(sig: seq<byte>, message: seq<byte>, publicKey: seq<byte>, seed: seq<byte>, B: Point)
    requires |sig| == 64
  {
    var prefix := Sha512Spec.Sha512(seed)[32..];
    var r := Le(Sha512Spec.Sha512(prefix + message)) % L;
    var k := Le(Sha512Spec.Sha512(sig[..32] + publicKey + message)) % L;
    Encodes(sig[..32], Multiple(r, B)) && Le(sig[32..]) == (r + k * SecretScalar(seed)) % L
  }

  // A key pair and a signature from a seed and a message are those of the standard.
  method KeyThenSign(seed: seq<byte>, message: seq<byte>, base: seq<seq<Precomp>>, ghost Bi: seq<Precomp>,
                     ghost B: Point)
    returns (publicKey: seq<byte>, signature: seq<byte>)
    requires Setting(base, Bi, B) && |seed| == 32 && Hashable(64 + |message|)
    ensures |signature| == 64 && RfcKey(publicKey, seed, B) && RfcSignature(signature, message, publicKey, seed, B)
  {
    hide Setting, Clamp, Encodes, Multiple, Le, RfcKey, RfcSignature, Sha512Spec.Sha512;
    var public, private := new byte[32], new byte[64];
    CreateKeypair(public, private, seed, base, Bi, B);
    var sig := new byte[64];
    Sign(sig, message, public[..], private[..], base, Bi, B);
    publicKey, signature := public[..], sig[..];
    FollowsRfc(signature, message, publicKey, private[..], seed, B);
  }

  lemma {:induction false} FollowsRfc(sig: seq<byte>, message: seq<byte>, publicKey: seq<byte>, privateKey: seq<byte>,
                                      seed: seq<byte>, B: Point)
    requires privateKey == Clamp(Digest(seed)) && Encodes(publicKey, Multiple(Le(privateKey[..32]), B))
    requires IsSignature(sig, message, publicKey, privateKey, B)
    ensures |sig| == 64 && RfcKey(publicKey, seed, B) && RfcSignature(sig, message, publicKey, seed, B)
  {
    hide Clamp, Encodes, Multiple, Le, Sha512Spec.Sha512;
    ClampKeeps(Digest(seed));
    CommuteSum(Le(Digest(sig[..32] + publicKey + message)) % L, Le(privateKey[..32]),
               Le(Digest(privateKey[32..] + message)) % L);
  }

  lemma CommuteSum(h: int, a: int, r: int)
    ensures h * a + r == r + h * a
  {
  }

  // The base point of the standard: y = 4 / 5 and x even. It is on the curve, and these are its bytes, 0x58 and
  // thirty-one times 0x66.
  const BASE: Point := Point(
    0x216936d3cd6e53fec0a4e231fdd6dc5c692cc7609525a7b2c9562d608f25d51a,
    0x6666666666666666666666666666666666666666666666666666666666666658)

  lemma BasePoint()
    ensures OnCurve(BASE) && Cong(5 * BASE.y, 4) && Encodes(Little(BASE.y, 32), BASE)
  {
    hide Little, Exp2, Le, CurveEquation;
    CongWitness(5 * BASE.y, 4, 4);
    BaseEquation();
    OnCurveMeaning(BASE);
    ThirtyTwoBytes();
    LittleValue(BASE.y, 32);
  }

  // 2^256, to write a long number in parts
  const HIGH: nat := 0x1_0000_0000_0000_0000_0000_0000_0000_0000_0000_0000_0000_0000_0000_0000_0000_0000

  lemma BaseEquation()
    ensures CurveEquation(BASE.x, BASE.y)
  {
    CurveMeaning(BASE.x, BASE.y);
    CongWitness(BASE.y * BASE.y - BASE.x * BASE.x, 1 + D * ((BASE.x * BASE.y) * (BASE.x * BASE.y)),
                -(((0x72705895b7fd68a9fa7924f5dbf66a83342931bfa505f5c01a65246a2283b5 * HIGH
                  + 0xbdefac6a6f236898302e8ed7c7df683605c40a4c5bad89dcf0c8e913ecc5b282) * HIGH
                  + 0xa35cfc55550db4be5e6bd6246e4a4ea2054904f5e4438fa42b0e56e116ea5951) * HIGH
                  + 0xcfeb87ecfc5b550744d2c0fca4a89ec707de8b3c9a756eb80e7ec260dc2fda59));
  }

  // The numbers of the standard: p = 2^255 - 19 and l = 2^252 + 27742317777372353535851937790883648493.
  lemma Moduli()
    ensures P == Exp2(255) - 19 && L == Exp2(252) + 27742317777372353535851937790883648493
  {
    hide Exp2;
    Exp248();
    ExpSmall();
    ExpAdd(248, 7);
    ExpAdd(248, 4);
  }

  // ----- verification -----

  const EXP253: nat := 0x2000_0000_0000_0000_0000_0000_0000_0000_0000_0000_0000_0000_0000_0000_0000_0000

  // Section 5.1.7: both points decode, S is below l, and S B = R + h A. (The section also allows the equation times 8.)
  ghost predicate Valid(sig: seq<byte>, message: seq<byte>, publicKey: seq<byte>, B: Point)
    requires |sig| == 64 && |publicKey| == 32
  {
    && Le(sig[32..]) < L
    && exists A, R :: OnCurve(A) && Encodes(publicKey, A) && ValidFor(sig, message, publicKey, A, R, B)
  }

  ghost predicate ValidFor(sig: seq<byte>, message: seq<byte>, publicKey: seq<byte>, A: Point, R: Point, B: Point)
    requires |sig| == 64
  {
    && OnCurve(R) && Encodes(sig[..32], R)
    && Multiple(Le(sig[32..]), B) == Sum(R, Multiple(ScalarOf(sig[..32] + publicKey + message), A))
  }

  // The code accepts every valid signature; and what it accepts is valid if and only if S is below l and the key is
  // canonical.
  lemma {:induction false} ValidExactly(sig: seq<byte>, message: seq<byte>, publicKey: seq<byte>, q: Point, B: Point)
    requires CurveFacts() && OnCurve(B) && |sig| == 64 && |publicKey| == 32
    requires Decodable(Le(publicKey) % EXP255) ==> DecodesNegated(publicKey, q)
    ensures Valid(sig, message, publicKey, B) <==>
              Accepts(sig, message, publicKey, q, B) && Le(sig[32..]) < L && Canonical(publicKey)
  {
    hide CurveFacts, OnCurve, Multiple, Sum, Encodes, Le, ScalarOf, Fermat, Decodable, DecodesNegated,
         Combination, Canonical, ValidFor;
    FactsOfCurve();
    StrictExactly(publicKey);
    if Valid(sig, message, publicKey, B) {
      var A, R :| OnCurve(A) && Encodes(publicKey, A) && ValidFor(sig, message, publicKey, A, R, B);
      assert Strict(publicKey);
      ValidIsAccepted(sig, message, publicKey, A, R, q, B);
    }
    if Accepts(sig, message, publicKey, q, B) && Le(sig[32..]) < L && Canonical(publicKey) {
      var A :| OnCurve(A) && Encodes(publicKey, A);
      AcceptedIsValid(sig, message, publicKey, A, q, B);
    }
  }

  lemma {:induction false} ValidIsAccepted(sig: seq<byte>, message: seq<byte>, publicKey: seq<byte>, A: Point, R: Point,
                                           q: Point, B: Point)
    requires CurveFacts() && OnCurve(B) && |sig| == 64 && |publicKey| == 32 && Le(sig[32..]) < L
    requires OnCurve(A) && Encodes(publicKey, A) && ValidFor(sig, message, publicKey, A, R, B)
    requires Decodable(Le(publicKey) % EXP255) ==> DecodesNegated(publicKey, q)
    ensures Accepts(sig, message, publicKey, q, B)
  {
    hide CurveFacts, OnCurve, Multiple, Sum, Encodes, Le, ScalarOf, Fermat, Decodable, DecodesNegated,
         Combination;
    FactsOfCurve();
    EncodedDecodable(publicKey, A);
    DecodeOfEncode(publicKey, A, q);
    SmallScalar(sig[32..]);
    Rearrange(ScalarOf(sig[..32] + publicKey + message), Le(sig[32..]), A, R, B);
  }

  lemma {:induction false} AcceptedIsValid(sig: seq<byte>, message: seq<byte>, publicKey: seq<byte>, A: Point, q: Point,
                                           B: Point)
    requires CurveFacts() && OnCurve(B) && |sig| == 64 && |publicKey| == 32 && Le(sig[32..]) < L
    requires OnCurve(A) && Encodes(publicKey, A) && Accepts(sig, message, publicKey, q, B)
    ensures Valid(sig, message, publicKey, B)
  {
    hide CurveFacts, OnCurve, Multiple, Sum, Encodes, Le, ScalarOf, Fermat, Decodable, DecodesNegated,
         Combination;
    FactsOfCurve();
    DecodeOfEncode(publicKey, A, q);
    var h, S := ScalarOf(sig[..32] + publicKey + message), Le(sig[32..]);
    var R := Combination(h, q, S, B);
    NegatedOnCurve(publicKey, q);
    CombinationOnCurve(h, q, S, B);
    Rearrange(h, S, A, R, B);
    assert ValidFor(sig, message, publicKey, A, R, B);
  }

  // h (-A) + S B = R exactly when S B = R + h A.
  lemma {:induction false} Rearrange(h: int, S: int, A: Point, R: Point, B: Point)
    requires CurveFacts() && OnCurve(A) && OnCurve(B) && OnCurve(R)
    ensures Combination(h, Negative(A), S, B) == R <==> Multiple(S, B) == Sum(R, Multiple(h, A))
  {
    hide CurveFacts, OnCurve, Multiple, Sum, Negative;
    var hA, SB := Multiple(h, A), Multiple(S, B);
    MultipleOnCurve(h, A);
    MultipleOnCurve(S, B);
    MultipleOfNegative(h, A);
    var n := Negative(hA);
    GroupLaws(hA, R);
    GroupLaws(hA, SB);
    GroupLaws(n, SB);
    GroupLaws(R, hA);
    GroupLaws(SB, n);
    Assoc(R, hA, n);
    Assoc(SB, n, hA);
  }

  lemma {:induction false} MultipleOfNegative(h: int, A: Point)
    requires CurveFacts() && OnCurve(A)
    ensures Multiple(h, Negative(A)) == Negative(Multiple(h, A))
  {
    hide *;
    MultipleNegative(1, A);
    MultipleOne(A);
    MultipleTimes(h, -1, A);
    MultipleNegative(h, A);
    assert h * -1 == -h;
  }

  // The range test of the code: the top three bits.
  lemma {:induction false} TopThreeBits(s: seq<byte>)
    requires |s| == 32
    ensures s[31] < 32 <==> Le(s) < EXP253
  {
    hide *;
    var t := s[31..];
    assert s == s[..31] + t && t == [s[31]];
    LeSplit(s[..31], t);
    LeBound(s[..31]);
    LeOne(s[31]);
    Exp248();
    TopOfRange(Exp2(8 * 31), s[31], Le(s[..31]));
  }

  lemma TopOfRange(m: nat, b: nat, low: nat)
    requires m * 128 == EXP255 && low < m
    ensures b < 32 <==> low + m * b < EXP253
  {
    assert b < 32 ==> m * b <= m * 31;
    assert b >= 32 ==> m * b >= m * 32;
  }

  // Adding multiples of l to S changes the verdict only through that range.
  lemma {:induction false} ShiftedAccepted(sig: seq<byte>, twin: seq<byte>, k: int, message: seq<byte>,
                                           publicKey: seq<byte>, q: Point, B: Point)
    requires CurveFacts() && OnCurve(B) && Multiple(L, B) == ORIGIN
    requires |sig| == |twin| == 64 && |publicKey| == 32 && twin[..32] == sig[..32]
    requires Le(twin[32..]) == Le(sig[32..]) + k * L && Accepts(sig, message, publicKey, q, B)
    ensures Accepts(twin, message, publicKey, q, B) <==> Le(twin[32..]) < EXP253
  {
    hide CurveFacts, OnCurve, Multiple, Sum, Encodes, Le, ScalarOf, Decodable, DecodesNegated;
    TopThreeBits(twin[32..]);
    var S := Le(sig[32..]);
    MultipleModulo(S, L, B);
    MultipleModulo(S + k * L, L, B);
    ShiftedModulo(S, k);
  }

  lemma ShiftedModulo(S: int, k: int)
    ensures (S + k * L) % L == S % L
  {
    DivModUnique(S + k * L, L, S / L + k, S % L);
  }

  // Every signature made under a key pair has a second form that the code accepts and that is not valid, unless its S
  // is 2^253 - l or more, as it is for few in 2^126 of the numbers below l.
  lemma {:induction false} SecondForm(sig: seq<byte>, message: seq<byte>, publicKey: seq<byte>, privateKey: seq<byte>,
                                      q: Point, B: Point) returns (twin: seq<byte>)
    requires CurveFacts() && OnCurve(B) && Multiple(L, B) == ORIGIN
    requires IsSignature(sig, message, publicKey, privateKey, B)
    requires Encodes(publicKey, Multiple(Le(privateKey[..32]), B)) && |publicKey| == 32
    requires DecodesNegated(publicKey, q) && Le(sig[32..]) < EXP253 - L
    ensures |twin| == 64 && twin[..32] == sig[..32] && Le(twin[32..]) == Le(sig[32..]) + L
    ensures Accepts(twin, message, publicKey, q, B) && !Valid(twin, message, publicKey, B)
  {
    hide CurveFacts, OnCurve, Multiple, Sum, Encodes, Le, ScalarOf, Decodable, DecodesNegated, Little, Exp2, Accepts;
    var S := Le(sig[32..]) + L;
    ThirtyTwoBytes();
    LittleValue(S, 32);
    twin := sig[..32] + Little(S, 32);
    assert twin[..32] == sig[..32] && twin[32..] == Little(S, 32);
    SignatureAccepted(sig, message, publicKey, privateKey, B, q);
    ShiftedAccepted(sig, twin, 1, message, publicKey, q, B);
  }
}
