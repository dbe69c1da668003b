// SHA-512 as FIPS 180-4 defines it: the reference the streaming implementation is proved against.
module Sha512Spec {
  import opened Bytes

  type word = bv64

  // Addition modulo 2^64
  function Plus(x: word, y: word): word {
    x + y
  }

  // ----- functions on words (sections 3.2 and 4.1.3) -----

  function Ch(x: word, y: word, z: word): word {
    (x & y) ^ (!x & z)
  }

  function Maj(x: word, y: word, z: word): word {
    (x & y) ^ (x & z) ^ (y & z)
  }

  function BigSigma0(x: word): word {
    x.RotateRight(28) ^ x.RotateRight(34) ^ x.RotateRight(39)
  }

  function BigSigma1(x: word): word {
    x.RotateRight(14) ^ x.RotateRight(18) ^ x.RotateRight(41)
  }

  function SmallSigma0(x: word): word {
    x.RotateRight(1) ^ x.RotateRight(8) ^ (x >> 7)
  }

  function SmallSigma1(x: word): word {
    x.RotateRight(19) ^ x.RotateRight(61) ^ (x >> 6)
  }

  // ----- constants (sections 4.2.3 and 5.3.5) -----

  const K0: seq<word> := [
    0x428a2f98d728ae22, 0x7137449123ef65cd, 0xb5c0fbcfec4d3b2f, 0xe9b5dba58189dbbc,
    0x3956c25bf348b538, 0x59f111f1b605d019, 0x923f82a4af194f9b, 0xab1c5ed5da6d8118
  ]
  const K1: seq<word> := [
    0xd807aa98a3030242, 0x12835b0145706fbe, 0x243185be4ee4b28c, 0x550c7dc3d5ffb4e2,
    0x72be5d74f27b896f, 0x80deb1fe3b1696b1, 0x9bdc06a725c71235, 0xc19bf174cf692694
  ]
  const K2: seq<word> := [
    0xe49b69c19ef14ad2, 0xefbe4786384f25e3, 0x0fc19dc68b8cd5b5, 0x240ca1cc77ac9c65,
    0x2de92c6f592b0275, 0x4a7484aa6ea6e483, 0x5cb0a9dcbd41fbd4, 0x76f988da831153b5
  ]
  const K3: seq<word> := [
    0x983e5152ee66dfab, 0xa831c66d2db43210, 0xb00327c898fb213f, 0xbf597fc7beef0ee4,
    0xc6e00bf33da88fc2, 0xd5a79147930aa725, 0x06ca6351e003826f, 0x142929670a0e6e70
  ]
  const K4: seq<word> := [
    0x27b70a8546d22ffc, 0x2e1b21385c26c926, 0x4d2c6dfc5ac42aed, 0x53380d139d95b3df,
    0x650a73548baf63de, 0x766a0abb3c77b2a8, 0x81c2c92e47edaee6, 0x92722c851482353b
  ]
  const K5: seq<word> := [
    0xa2bfe8a14cf10364, 0xa81a664bbc423001, 0xc24b8b70d0f89791, 0xc76c51a30654be30,
    0xd192e819d6ef5218, 0xd69906245565a910, 0xf40e35855771202a, 0x106aa07032bbd1b8
  ]
  const K6: seq<word> := [
    0x19a4c116b8d2d0c8, 0x1e376c085141ab53, 0x2748774cdf8eeb99, 0x34b0bcb5e19b48a8,
    0x391c0cb3c5c95a63, 0x4ed8aa4ae3418acb, 0x5b9cca4f7763e373, 0x682e6ff3d6b2b8a3
  ]
  const K7: seq<word> := [
    0x748f82ee5defb2fc, 0x78a5636f43172f60, 0x84c87814a1f0ab72, 0x8cc702081a6439ec,
    0x90befffa23631e28, 0xa4506cebde82bde9, 0xbef9a3f7b2c67915, 0xc67178f2e372532b
  ]
  const K8: seq<word> := [
    0xca273eceea26619c, 0xd186b8c721c0c207, 0xeada7dd6cde0eb1e, 0xf57d4f7fee6ed178,
    0x06f067aa72176fba, 0x0a637dc5a2c898a6, 0x113f9804bef90dae, 0x1b710b35131c471b
  ]
  const K9: seq<word> := [
    0x28db77f523047d84, 0x32caab7b40c72493, 0x3c9ebe0a15c9bebc, 0x431d67c49c100d4c,
    0x4cc5d4becb3e42b6, 0x597f299cfc657e2a, 0x5fcb6fab3ad6faec, 0x6c44198c4a475817
  ]
  const K: seq<word> := K0 + K1 + K2 + K3 + K4 + K5 + K6 + K7 + K8 + K9

  const INITIAL: seq<word> := [
    0x6a09e667f3bcc908, 0xbb67ae8584caa73b, 0x3c6ef372fe94f82b, 0xa54ff53a5f1d36f1,
    0x510e527fade682d1, 0x9b05688c2b3e6c1f, 0x1f83d9abfb41bd6b, 0x5be0cd19137e2179
  ]

  lemma ConstantLengths()
    ensures |K| == 80 && |INITIAL| == 8
  {
    hide K0, K1, K2, K3, K4, K5, K6, K7, K8, K9;
    RowLengths();
    InitialLength();
  }

  lemma InitialLength()
    ensures |INITIAL| == 8
  {
  }

  lemma RowLengths()
    ensures |K0| == |K1| == |K2| == |K3| == |K4| == |K5| == |K6| == |K7| == |K8| == |K9| == 8
  {
  }

  // ----- big-endian numbers and words -----

  ghost function BigEndian(s: seq<byte>): nat {
    if s == [] then 0 else 256 * BigEndian(s[..|s| - 1]) + s[|s| - 1]
  }

  // The n bytes of a number, most significant first.
  ghost function ToBigEndian(x: nat, n: nat): (s: seq<byte>)
    ensures |s| == n
  {
    if n == 0 then [] else ToBigEndian(x / 256, n - 1) + [x % 256]
  }

  function ToWord(x: nat): word
    requires x < 0x1_0000_0000_0000_0000
  {
    x as bv64
  }

  function FromWord(w: word): (x: nat)
    ensures x < 0x1_0000_0000_0000_0000
  {
    w as int
  }

  // ----- the compression function (section 6.4.2) -----

  ghost function BlockWord(block: seq<byte>, t: nat): word
    requires |block| == 128 && t < 16
  {
    BigEndianBound(block[8 * t..8 * t + 8]);
    ToWord(BigEndian(block[8 * t..8 * t + 8]))
  }

  lemma {:induction false} BigEndianBound(s: seq<byte>)
    ensures BigEndian(s) < Exp2(8 * |s|)
    ensures |s| == 8 ==> BigEndian(s) < 0x1_0000_0000_0000_0000
    decreases s
  {
    if s != [] {
      BigEndianBound(s[..|s| - 1]);
      ExpAdd(8, 8 * (|s| - 1));
      ExpSmall();
      assert 8 + 8 * (|s| - 1) == 8 * |s|;
    }
    if |s| == 8 {
      ExpSmall();
      ExpAdd(32, 32);
    }
  }

  // The first n words of the message schedule.
  ghost function Schedule(block: seq<byte>, n: nat): (w: seq<word>)
    requires |block| == 128
    ensures |w| == n
  {
    if n == 0 then []
    else
      var w := Schedule(block, n - 1);
      w + [ScheduleWord(block, w)]
  }

  ghost function ScheduleWord(block: seq<byte>, w: seq<word>): word
    requires |block| == 128
  {
    var t := |w|;
    if t < 16 then BlockWord(block, t)
    else Plus(Plus(Plus(SmallSigma1(w[t - 2]), w[t - 7]), SmallSigma0(w[t - 15])), w[t - 16])
  }

  // The eight working variables.
  datatype Vars = Vars(a: word, b: word, c: word, d: word, e: word, f: word, g: word, h: word)

  function Round(v: Vars, k: word, w: word): Vars {
    var t1 := Plus(Plus(Plus(Plus(v.h, BigSigma1(v.e)), Ch(v.e, v.f, v.g)), k), w);
    var t2 := Plus(BigSigma0(v.a), Maj(v.a, v.b, v.c));
    Vars(Plus(t1, t2), v.a, v.b, v.c, Plus(v.d, t1), v.e, v.f, v.g)
  }

  ghost function Rounds(v: Vars, w: seq<word>, n: nat): Vars
    requires n <= |w| && n <= 80
  {
    if n == 0 then v
    else
      ConstantLengths();
      Round(Rounds(v, w, n - 1), K[n - 1], w[n - 1])
  }

  ghost function StateVars(s: seq<word>): Vars
    requires |s| == 8
  {
    Vars(s[0], s[1], s[2], s[3], s[4], s[5], s[6], s[7])
  }

  ghost function Compress(s: seq<word>, block: seq<byte>): (r: seq<word>)
    requires |s| == 8 && |block| == 128
    ensures |r| == 8
  {
    var v := Rounds(StateVars(s), Schedule(block, 80), 80);
    [Plus(s[0], v.a), Plus(s[1], v.b), Plus(s[2], v.c), Plus(s[3], v.d),
     Plus(s[4], v.e), Plus(s[5], v.f), Plus(s[6], v.g), Plus(s[7], v.h)]
  }

  // ----- padding and the whole hash (sections 5.1.2 and 6.4) -----

  // All blocks in order, from the initial value.
  ghost function HashBlocks(s: seq<byte>): (r: seq<word>)
    requires |s| % 128 == 0
    ensures |r| == 8
  {
    ConstantLengths();
    if s == [] then INITIAL else Compress(HashBlocks(s[..|s| - 128]), s[|s| - 128..])
  }

  ghost function Zeros(n: nat): (s: seq<byte>)
    ensures |s| == n
  {
    seq(n, _ => 0)
  }

  lemma {:induction false} BigEndianZero(n: nat)
    ensures ToBigEndian(0, n) == Zeros(n)
  {
    if n > 0 {
      BigEndianZero(n - 1);
    }
  }

  // A one bit, the fewest zero bits that leave room for it, and the length field.
  ghost function Padded(message: seq<byte>, bits: nat): (s: seq<byte>)
    ensures |s| % 128 == 0
  {
    message + [0x80] + Zeros((111 - |message|) % 128) + ToBigEndian(bits, 16)
  }

  ghost function WordsToBytes(s: seq<word>): (r: seq<byte>)
    ensures |r| == 8 * |s|
  {
    if s == [] then [] else WordsToBytes(s[..|s| - 1]) + ToBigEndian(FromWord(s[|s| - 1]), 8)
  }

  // The digest of a message whose length field says bits.
  ghost function DigestOf(message: seq<byte>, bits: nat): (r: seq<byte>)
    ensures |r| == 64
  {
    WordsToBytes(HashBlocks(Padded(message, bits)))
  }

  ghost function Sha512(message: seq<byte>): (r: seq<byte>)
    ensures |r| == 64
  {
    DigestOf(message, 8 * |message|)
  }
}
