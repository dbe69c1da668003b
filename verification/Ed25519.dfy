// ntfe/ed25519/keypair.c, sign.c and verify.c: the signature scheme, and that verification accepts what signing makes.
module Ed25519 {
  import opened Bytes
  import opened Packing
  import opened FieldBytes
  import opened FieldSelect
  import opened EdwardsCurve
  import opened GroupElements
  import opened PointMultiples
  import opened PointEncoding
  import opened PointDecoding
  import opened ScalarLimbs
  import opened Scalar
  import opened ScalarMult
  import Sha512Spec
  import Sha512

  // What is taken for granted: the field and curve facts, that the base point has order dividing l, and that the
  // two precomputed tables hold its multiples.
  ghost predicate Setting(base: seq<seq<Precomp>>, Bi: seq<Precomp>, B: Point) {
    && CurveFacts() && OnCurve(B) && Multiple(L, B) == ORIGIN
    && BaseTable(base, B) && OddPrecomp(Bi, B)
  }

  ghost predicate Hashable(n: nat) {
    8 * n < Sha512.WORD64
  }

  ghost function Digest(message: seq<byte>): (r: seq<byte>)
    ensures |r| == 64
  {
    Sha512Spec.Sha512(message)
  }

  // A hash taken modulo l
  ghost function ScalarOf(message: seq<byte>): nat {
    Le(Digest(message)) % L
  }

  // ----- keys -----

  // The clamping of section 5.1.5 of RFC 8032: the lowest three bits cleared, bit 255 cleared, bit 254 set.
  ghost function Clamp(s: seq<byte>): (r: seq<byte>)
    requires |s| >= 32
    ensures |r| == |s|
  {
    s[0 := s[0] - s[0] % 8][31 := s[31] % 64 + 64]
  }

  // The clamped scalar is a multiple of 8 from 2^254 up to, but not including, 2^255.
  lemma ClampedScalar(s: seq<byte>)
    requires |s| >= 32
    ensures var a := Le(Clamp(s)[..32]);
            a % 8 == 0 && EXP255 <= 2 * a && a < EXP255
  {
    hide Le, Exp2;
    var t := Clamp(s)[..32];
    TopBitClear(t);
    FirstByte(t);
    assert t == t[..31] + [t[31]];
    LeSplit(t[..31], [t[31]]);
    LeOne(t[31]);
    Exp248();
    HighBit(Exp2(8 * 31), t[31]);
  }

  const EXP254: nat := 0x4000_0000_0000_0000_0000_0000_0000_0000_0000_0000_0000_0000_0000_0000_0000_0000

  // Clamping keeps bits 3 to 253 of the scalar and everything behind it.
  lemma ClampKeeps(s: seq<byte>)
    requires |s| >= 32
    ensures Le(Clamp(s)[..32]) == EXP254 + 8 * (Le(s[..32]) % EXP254 / 8)
    ensures Clamp(s)[32..] == s[32..]
  {
    hide Le, Exp2;
    var t, m := Clamp(s)[..32], s[1..31];
    assert s[..32] == [s[0]] + m + [s[31]] && t == [s[0] - s[0] % 8] + m + [s[31] % 64 + 64];
    ThreeParts(s[0], m, s[31]);
    ThreeParts(s[0] - s[0] % 8, m, s[31] % 64 + 64);
    LeBound(m);
    Exp248();
    ExpSmall();
    ExpAdd(8 * 30, 8);
    ClampNumber(s[0], Le(m), s[31], Exp2(8 * 31), Le(s[..32]));
  }

  lemma {:induction false} ThreeParts(a: byte, m: seq<byte>, b: byte)
    requires |m| == 30
    ensures Le([a] + m + [b]) == a + 256 * Le(m) + Exp2(8 * 31) * b
  {
    hide Le, Exp2;
    ExpSmall();
    LeSplit([a] + m, [b]);
    LeSplit([a], m);
    LeOne(a);
    LeOne(b);
  }

  lemma ClampNumber(a: nat, m: nat, b: nat, w: nat, n: nat)
    requires a < 256 && 256 * m + 256 <= w && w * 64 == EXP254 && n == a + 256 * m + w * b
    ensures a - a % 8 + 256 * m + w * (b % 64 + 64) == EXP254 + 8 * (n % EXP254 / 8)
  {
    var low := a + 256 * m + w * (b % 64);
    assert w * b == w * (b % 64) + EXP254 * (b / 64) by {
      TopSplit(w, b);
    }
    assert low < EXP254 by {
      TopBelow(w, b % 64);
    }
    DivModUnique(n, EXP254, b / 64, low);
    var c := w / 8 * (b % 64);
    assert w == 8 * (w / 8);
    EighthTimes(w, b % 64);
    DivModUnique(low, 8, a / 8 + 32 * m + c, a % 8);
    assert w * (b % 64 + 64) == w * (b % 64) + w * 64;
  }

  lemma TopSplit(w: nat, b: nat)
    ensures w * b == w * (b % 64) + (w * 64) * (b / 64)
  {
    var q, r := b / 64, b % 64;
    assert w * (64 * q + r) == (w * 64) * q + w * r;
  }

  lemma TopBelow(w: nat, r: nat)
    requires r < 64
    ensures w * r + w <= w * 64
  {
    assert w * (r + 1) <= w * 64;
  }

  lemma EighthTimes(w: nat, r: nat)
    requires w % 8 == 0
    ensures w * r == 8 * (w / 8 * r)
  {
    var q := w / 8;
    assert (8 * q) * r == 8 * (q * r);
  }

  lemma {:induction false} FirstByte(t: seq<byte>)
    requires |t| > 0
    ensures Le(t) % 8 == t[0] % 8
  {
  }

  lemma HighBit(m: nat, b: nat)
    requires b >= 64
    ensures m * b >= m * 64
  {
  }

  lemma {:induction false} ClampLow(b: byte)
    ensures BitAnd(248, b) == b - b % 8
  {
    hide *;
    ExpSmall();
    AndShift(3, 31, b);
    BitAndMask(b / 8, 5);
  }

  lemma {:induction false} ClampHigh(b: byte)
    ensures BitAnd(63, b) == b % 64
    ensures BitOr(b % 64, 64) == b % 64 + 64
  {
    ExpSmall();
    BitAndMask(b, 6);
    BitOrDisjoint(b % 64, 1, 6);
  }

  // ed25519_create_keypair
  method CreateKeypair(publicKey: array<byte>, privateKey: array<byte>, seed: seq<byte>,
                       base: seq<seq<Precomp>>, ghost Bi: seq<Precomp>, ghost B: Point)
    requires Setting(base, Bi, B)
    requires publicKey.Length == 32 && privateKey.Length == 64 && publicKey != privateKey && |seed| == 32
    modifies publicKey, privateKey
    ensures privateKey[..] == Clamp(Digest(seed))
    ensures Encodes(publicKey[..], Multiple(Le(privateKey[..32]), B))
  {
    hide CurveFacts, OnCurve, BaseTable, OddPrecomp, Multiple, Encodes, Le, IsP3, Fermat, Digest;
    HashAndClamp(privateKey, seed);
    var A := ScalarMultBase(privateKey[..32], base, B);
    MultipleOnCurve(Le(privateKey[..32]), B);
    FactsOfCurve();
    P3ToBytes(publicKey, 0, A, Multiple(Le(privateKey[..32]), B));
    assert publicKey[0..32] == publicKey[..];
  }

  method HashAndClamp(privateKey: array<byte>, seed: seq<byte>)
    requires privateKey.Length == 64 && |seed| == 32
    modifies privateKey
    ensures privateKey[..] == Clamp(Digest(seed)) && privateKey[31] < 128
  {
    hide BitAnd, BitOr, Sha512Spec.Sha512;
    var _ := Sha512.Hash(seed, privateKey);
    ghost var digest := privateKey[..];
    ClampLow(privateKey[0]);
    ClampHigh(privateKey[31]);
    privateKey[0] := BitAnd(248, privateKey[0]);
    privateKey[31] := BitAnd(63, privateKey[31]);
    privateKey[31] := BitOr(privateKey[31], 64);
    assert privateKey[..] == Clamp(digest);
  }

  // ----- signing -----

  // The signature on a message: an encoding of r B, then (h a + r) mod l.
  ghost predicate IsSignature(sig: seq<byte>, message: seq<byte>, publicKey: seq<byte>, privateKey: seq<byte>,
                              B: Point)
  {
    && |sig| == 64 && |privateKey| == 64
    && var r := ScalarOf(privateKey[32..] + message);
       var h := ScalarOf(sig[..32] + publicKey + message);
       && Encodes(sig[..32], Multiple(r, B))
       && Le(sig[32..]) == (h * Le(privateKey[..32]) + r) % L
  }

  // Reducing a digest in place.
  method ReduceDigest(s: array<byte>, ghost message: seq<byte>)
    requires s.Length == 64 && s[..] == Digest(message)
    modifies s
    ensures Le(s[..32]) == ScalarOf(message) < L && s[31] < 32
  {
    hide Le, Digest;
    ScReduce(s);
    SmallScalar(s[..32]);
  }

  lemma {:induction false} SmallScalar(s: seq<byte>)
    requires |s| == 32 && Le(s) < L
    ensures s[31] < 32 && Le(s) < EXP255
  {
    hide Le, Exp2;
    var t := s[31..];
    assert s == s[..31] + t && t == [s[31]];
    LeSplit(s[..31], t);
    LeOne(s[31]);
    Exp248();
    TopByteBound(Exp2(8 * 31), s[31]);
  }

  lemma TopByteBound(m: nat, b: nat)
    requires m * b < L && m * 128 == EXP255
    ensures b < 32
  {
    assert b >= 32 ==> m * (b - 32) >= 0;
  }

  method HashThree(out: array<byte>, a: seq<byte>, b: seq<byte>, c: seq<byte>)
    requires out.Length == 64 && Hashable(|a| + |b| + |c|)
    modifies out
    ensures out[..] == Digest(a + b + c)
  {
    hide Sha512Spec.Sha512, Sha512Spec.DigestOf, Sha512.Context.Valid;
    var hash := new Sha512.Context();
    var _ := hash.Init();
    var _ := hash.Update(a);
    var _ := hash.Update(b);
    var _ := hash.Update(c);
    assert [] + a + b + c == a + b + c;
    var _ := hash.Final(out);
  }

  method HashTwo(out: array<byte>, a: seq<byte>, b: seq<byte>)
    requires out.Length == 64 && Hashable(|a| + |b|)
    modifies out
    ensures out[..] == Digest(a + b)
  {
    hide Sha512Spec.Sha512, Sha512Spec.DigestOf, Sha512.Context.Valid;
    var hash := new Sha512.Context();
    var _ := hash.Init();
    var _ := hash.Update(a);
    var _ := hash.Update(b);
    assert [] + a + b == a + b;
    var _ := hash.Final(out);
  }

  // ed25519_sign
  method Sign(signature: array<byte>, message: seq<byte>, publicKey: seq<byte>, privateKey: seq<byte>,
              base: seq<seq<Precomp>>, ghost Bi: seq<Precomp>, ghost B: Point)
    requires Setting(base, Bi, B)
    requires signature.Length == 64 && |publicKey| == 32 && |privateKey| == 64 && Hashable(64 + |message|)
    modifies signature
    ensures IsSignature(signature[..], message, publicKey, privateKey, B)
  {
    hide CurveFacts, OnCurve, BaseTable, OddPrecomp, Multiple, Encodes, Le, Digest, ScalarOf, IsP3, Fermat;
    var r := new byte[64];
    HashTwo(r, privateKey[32..], message);
    ReduceDigest(r, privateKey[32..] + message);
    ghost var k := Le(r[..32]);
    var R := ScalarMultBase(r[..32], base, B);
    MultipleOnCurve(k, B);
    FactsOfCurve();
    P3ToBytes(signature, 0, R, Multiple(k, B));
    ghost var first := signature[0..32];
    assert signature[..32] == first;
    var hram := new byte[64];
    HashThree(hram, signature[..32], publicKey, message);
    ReduceDigest(hram, first + publicKey + message);
    ScMulAdd(signature, 32, hram[..32], privateKey[..32], r[..32]);
    assert signature[..32] == first && signature[32..64] == signature[32..];
  }

  // ----- verifying -----

  // consttime_equal
  method ConsttimeEqual(x: seq<byte>, y: seq<byte>) returns (equal: bool)
    requires |x| == 32 && |y| == 32
    ensures equal <==> x == y
  {
    hide BitXor, BitOr;
    var r: byte := 0;
    var i := 0;
    while i < 32
      invariant 0 <= i <= 32
      invariant r == 0 <==> forall j :: 0 <= j < i ==> x[j] == y[j]
    {
      XorEqual(x[i], y[i]);
      XorByte(x[i], y[i]);
      OrByte(r, BitXor(x[i], y[i]));
      OrZero(r, BitXor(x[i], y[i]));
      r := BitOr(r, BitXor(x[i], y[i]));
      i := i + 1;
    }
    equal := r == 0;
  }

  lemma {:induction false} XorByte(a: byte, b: byte)
    ensures BitXor(a, b) < 256
  {
    ExpSmall();
    XorBound(a, b, 8);
  }

  // signature[63] & 224
  lemma {:induction false} TopBits(b: byte)
    ensures BitAnd(224, b) == 0 <==> b < 32
  {
    hide *;
    ExpSmall();
    AndShift(5, 7, b);
    BitAndMask(b / 32, 3);
  }

  // What verification checks: the top three bits of S, that the key decodes to some -A, and that the first half
  // encodes h (-A) + S B.
  ghost predicate Accepts(sig: seq<byte>, message: seq<byte>, publicKey: seq<byte>, q: Point, B: Point)
    requires |sig| == 64 && |publicKey| == 32
  {
    && sig[63] < 32
    && Decodable(Le(publicKey) % EXP255) && DecodesNegated(publicKey, q)
    && Encodes(sig[..32], Combination(ScalarOf(sig[..32] + publicKey + message), q, Le(sig[32..]), B))
  }

  // ed25519_verify
  method Verify(signature: seq<byte>, message: seq<byte>, publicKey: seq<byte>,
                ghost base: seq<seq<Precomp>>, Bi: seq<Precomp>, ghost B: Point) returns (ok: int, ghost q: Point)
    requires Setting(base, Bi, B)
    requires |signature| == 64 && |publicKey| == 32 && Hashable(64 + |message|)
    ensures ok == 0 || ok == 1
    ensures signature[63] < 32 && Decodable(Le(publicKey) % EXP255) ==> DecodesNegated(publicKey, q)
    ensures ok == 1 <==> Accepts(signature, message, publicKey, q, B)
  {
    hide CurveFacts, OnCurve, BaseTable, OddPrecomp, Multiple, Combination, Encodes, Le, Digest, ScalarOf, IsP3, IsP2,
          Fermat, BitAnd, Decodable, DecodesNegated;
    q := ORIGIN;
    TopBits(signature[63]);
    if BitAnd(224, signature[63]) != 0 {
      return 0, q;
    }
    FactsOfCurve();
    var code, A;
    code, A, q := FromBytesNegate(publicKey);
    if code != 0 {
      return 0, q;
    }
    var h := new byte[64];
    HashThree(h, signature[..32], publicKey, message);
    ReduceDigest(h, signature[..32] + publicKey + message);
    SmallScalar(h[..32]);
    SmallTop(signature[32..]);
    NegatedOnCurve(publicKey, q);
    var R := DoubleScalarMult(h[..32], A, signature[32..], Bi, q, B);
    ghost var point := Combination(Le(h[..32]), q, Le(signature[32..]), B);
    CombinationOnCurve(Le(h[..32]), q, Le(signature[32..]), B);
    var checker := new byte[32];
    P2ToBytes(checker, 0, R, point);
    assert checker[0..32] == checker[..];
    var same := ConsttimeEqual(checker[..], signature[..32]);
    EncodingDecides(checker[..], signature[..32], point);
    ok := if same then 1 else 0;
  }

  lemma {:induction false} SmallTop(s: seq<byte>)
    requires |s| == 32 && s[31] < 32
    ensures Le(s) < EXP255
  {
    TopBitClear(s);
  }

  lemma NegatedOnCurve(s: seq<byte>, q: Point)
    requires |s| == 32 && DecodesNegated(s, q)
    ensures OnCurve(q)
  {
  }

  lemma EncodingDecides(s: seq<byte>, t: seq<byte>, p: Point)
    requires Encodes(s, p)
    ensures s == t <==> Encodes(t, p)
  {
    hide *;
    if Encodes(t, p) {
      EncodesUnique(s, t, p);
    }
  }

  // ----- what signing makes, verification accepts -----

  lemma {:induction false} SignatureAccepted(sig: seq<byte>, message: seq<byte>, publicKey: seq<byte>,
      privateKey: seq<byte>, B: Point, q: Point)
    requires CurveFacts() && OnCurve(B) && Multiple(L, B) == ORIGIN
    requires IsSignature(sig, message, publicKey, privateKey, B)
    requires Encodes(publicKey, Multiple(Le(privateKey[..32]), B)) && |publicKey| == 32
    requires DecodesNegated(publicKey, q)
    ensures Accepts(sig, message, publicKey, q, B)
  {
    hide CurveFacts, OnCurve, Multiple, Combination, Encodes, Le, ScalarOf, Fermat, Decodable,
         DecodesNegated, Negative;
    var a := Le(privateKey[..32]);
    var r := ScalarOf(privateKey[32..] + message);
    var h := ScalarOf(sig[..32] + publicKey + message);
    FactsOfCurve();
    MultipleOnCurve(a, B);
    EncodedDecodable(publicKey, Multiple(a, B));
    DecodeOfEncode(publicKey, Multiple(a, B), q);
    SmallScalar(sig[32..]);
    CombinationCancels(h, a, r, Le(sig[32..]), q, B);
  }

  // h (-a B) + S B = r B when S = (h a + r) mod l
  lemma {:induction false} CombinationCancels(h: int, a: int, r: int, s: int, q: Point, B: Point)
    requires CurveFacts() && OnCurve(B) && Multiple(L, B) == ORIGIN
    requires q == Negative(Multiple(a, B)) && s == (h * a + r) % L
    ensures Combination(h, q, s, B) == Multiple(r, B)
  {
    hide CurveFacts, OnCurve, Multiple, Sum, Negative;
    MultipleNegative(a, B);
    MultipleTimes(h, -a, B);
    MultipleModulo(h * a + r, L, B);
    MultipleAdd(h * -a, h * a + r, B);
    Cancels(h, a, r);
  }

  lemma Cancels(h: int, a: int, r: int)
    ensures h * -a + (h * a + r) == r
  {
  }

  // Every signature made under a generated key pair is accepted, for every seed and message.
  method SignThenVerify(seed: seq<byte>, message: seq<byte>, base: seq<seq<Precomp>>, Bi: seq<Precomp>, ghost B: Point)
    returns (ok: int)
    requires Setting(base, Bi, B) && |seed| == 32 && Hashable(64 + |message|)
    ensures ok == 1
  {
    hide CurveFacts, OnCurve, BaseTable, OddPrecomp, Multiple, Encodes, Le, Digest, Accepts, Clamp,
          Decodable, DecodesNegated, Combination, ScalarOf, Fermat;
    var publicKey := new byte[32];
    var privateKey := new byte[64];
    CreateKeypair(publicKey, privateKey, seed, base, Bi, B);
    var signature := new byte[64];
    Sign(signature, message, publicKey[..], privateKey[..], base, Bi, B);
    ghost var q;
    ok, q := Verify(signature[..], message, publicKey[..], base, Bi, B);
    ghost var A := Multiple(Le(privateKey[..32]), B);
    assert privateKey[..][..32] == privateKey[..32];
    MultipleOnCurve(Le(privateKey[..32]), B);
    EncodedDecodable(publicKey[..], A);
    SmallScalar(signature[..][32..]);
    SignatureAccepted(signature[..], message, publicKey[..], privateKey[..], B, q);
  }
}
