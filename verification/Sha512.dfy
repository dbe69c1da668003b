// ntfe/ed25519/sha512.c: the streaming hash. A context holds the chaining state, the bytes of an unfinished block and
// the number of bits compressed so far; the ghost field message is everything hashed since the start.
module Sha512 {
  import opened Bytes
  import opened Packing
  import opened Sha512Spec

  // ----- the macros -----

  // Ch and Maj as the C code writes them
  function MacroCh(x: word, y: word, z: word): word {
    z ^ (x & (y ^ z))
  }

  function MacroMaj(x: word, y: word, z: word): word {
    ((x | y) & z) | (x & y)
  }

  // ROR64c and R, and the four functions made of them
  function MacroSigma0(x: word): word {
    ((x >> 28) | (x << 36)) ^ ((x >> 34) | (x << 30)) ^ ((x >> 39) | (x << 25))
  }

  function MacroSigma1(x: word): word {
    ((x >> 14) | (x << 50)) ^ ((x >> 18) | (x << 46)) ^ ((x >> 41) | (x << 23))
  }

  function MacroGamma0(x: word): word {
    ((x >> 1) | (x << 63)) ^ ((x >> 8) | (x << 56)) ^ (x >> 7)
  }

  function MacroGamma1(x: word): word {
    ((x >> 19) | (x << 45)) ^ ((x >> 61) | (x << 3)) ^ (x >> 6)
  }

  lemma MacroRotations(x: word)
    ensures MacroSigma0(x) == BigSigma0(x) && MacroSigma1(x) == BigSigma1(x)
    ensures MacroGamma0(x) == SmallSigma0(x) && MacroGamma1(x) == SmallSigma1(x)
  {
  }

  lemma ChIdentity(x: bv64, y: bv64, z: bv64)
    ensures z ^ (x & (y ^ z)) == (x & y) ^ (!x & z)
  {
  }

  lemma MajIdentity(x: bv64, y: bv64, z: bv64)
    ensures ((x | y) & z) | (x & y) == (x & y) ^ (x & z) ^ (y & z)
  {
  }

  lemma MacroMeaning(x: word, y: word, z: word)
    ensures MacroCh(x, y, z) == Ch(x, y, z) && MacroMaj(x, y, z) == Maj(x, y, z)
  {
    ChIdentity(x, y, z);
    MajIdentity(x, y, z);
  }

  // LOAD64H; a shift left by k is multiplication by 2^k.
  method Load64(s: seq<byte>, at: nat) returns (x: word)
    requires at + 8 <= |s|
    ensures BigEndian(s[at..at + 8]) < 0x1_0000_0000_0000_0000
    ensures x == ToWord(BigEndian(s[at..at + 8]))
  {
    hide *;
    var a := JoinEight(s[at], s[at + 1], s[at + 2], s[at + 3], s[at + 4], s[at + 5], s[at + 6], s[at + 7]);
    EightBytes(s[at..at + 8]);
    BigEndianBound(s[at..at + 8]);
    x := ToWord(a);
  }

  method JoinEight(b0: nat, b1: nat, b2: nat, b3: nat, b4: nat, b5: nat, b6: nat, b7: nat) returns (a: nat)
    requires b1 < 256 && b2 < 256 && b3 < 256 && b4 < 256 && b5 < 256 && b6 < 256 && b7 < 256
    ensures a == 256 * (256 * (256 * (256 * (256 * (256 * (256 * b0 + b1) + b2) + b3) + b4) + b5) + b6) + b7
  {
    hide *;
    a := Exp2(56) * b0;
    ghost var n := b0;
    n := OrStep(n, b1, 48);
    a := BitOr(a, Exp2(48) * b1);
    n := OrStep(n, b2, 40);
    a := BitOr(a, Exp2(40) * b2);
    n := OrStep(n, b3, 32);
    a := BitOr(a, Exp2(32) * b3);
    n := OrStep(n, b4, 24);
    a := BitOr(a, Exp2(24) * b4);
    n := OrStep(n, b5, 16);
    a := BitOr(a, Exp2(16) * b5);
    n := OrStep(n, b6, 8);
    a := BitOr(a, Exp2(8) * b6);
    n := OrStep(n, b7, 0);
    a := BitOr(a, Exp2(0) * b7);
    ExpSmall();
  }

  // OR with the next byte down.
  lemma OrStep(a: nat, b: nat, j: nat) returns (n: nat)
    requires b < 256
    ensures n == 256 * a + b && BitOr(Exp2(j + 8) * a, Exp2(j) * b) == Exp2(j) * n
  {
    hide BitOr, Exp2;
    ExpAdd(j, 8);
    ExpSmall();
    ScaleBelow(Exp2(j), b);
    OrCommutes(Exp2(j + 8) * a, Exp2(j) * b);
    BitOrDisjoint(Exp2(j) * b, a, j + 8);
    StepTerms(Exp2(j), a, b);
    n := 256 * a + b;
  }

  lemma ScaleBelow(m: nat, b: nat)
    requires m >= 1 && b < 256
    ensures m * b < m * 256
  {
  }

  lemma StepTerms(m: int, a: int, b: int)
    ensures m * b + (m * 256) * a == m * (256 * a + b)
  {
  }

  lemma {:induction false} OrCommutes(a: nat, b: nat)
    ensures BitOr(a, b) == BitOr(b, a)
    decreases a + b
  {
    if a != 0 || b != 0 {
      OrCommutes(a / 2, b / 2);
    }
  }

  lemma {:induction false} EightBytes(s: seq<byte>)
    requires |s| == 8
    ensures BigEndian(s) ==
            256 * (256 * (256 * (256 * (256 * (256 * (256 * (s[0] as int) + s[1] as int) + s[2] as int) + s[3] as int)
                            + s[4] as int) + s[5] as int) + s[6] as int) + s[7] as int
  {
    hide BigEndian;
    LastByte(s, 8);
    LastByte(s, 7);
    LastByte(s, 6);
    LastByte(s, 5);
    LastByte(s, 4);
    LastByte(s, 3);
    LastByte(s, 2);
    LastByte(s, 1);
    NoBytes(s[..0]);
    assert s[..8] == s;
  }

  lemma LastByte(s: seq<byte>, n: nat)
    requires 0 < n <= |s|
    ensures BigEndian(s[..n]) == 256 * BigEndian(s[..n - 1]) + s[n - 1] as int
  {
    assert s[..n][..n - 1] == s[..n - 1];
  }

  lemma {:induction false} NoBytes(s: seq<byte>)
    requires s == []
    ensures BigEndian(s) == 0
  {
  }

  // STORE64H
  method Store64(x: nat, out: array<byte>, at: nat)
    requires x < 0x1_0000_0000_0000_0000 && at + 8 <= out.Length
    modifies out
    ensures out[..at] == old(out[..at]) && out[at + 8..] == old(out[at + 8..])
    ensures out[at..at + 8] == ToBigEndian(x, 8)
  {
    out[at] := x / 0x100_0000_0000_0000 % 256;
    out[at + 1] := x / 0x1_0000_0000_0000 % 256;
    out[at + 2] := x / 0x100_0000_0000 % 256;
    out[at + 3] := x / 0x1_0000_0000 % 256;
    out[at + 4] := x / 0x100_0000 % 256;
    out[at + 5] := x / 0x1_0000 % 256;
    out[at + 6] := x / 0x100 % 256;
    out[at + 7] := x % 256;
    EightDigits(x);
    assert out[at..at + 8] == [
      x / 0x100_0000_0000_0000 % 256, x / 0x1_0000_0000_0000 % 256, x / 0x100_0000_0000 % 256, x / 0x1_0000_0000 % 256,
      x / 0x100_0000 % 256, x / 0x1_0000 % 256, x / 0x100 % 256, x % 256];
  }

  lemma {:induction false} EightDigits(x: nat)
    ensures ToBigEndian(x, 8) == [
      x / 0x100_0000_0000_0000 % 256, x / 0x1_0000_0000_0000 % 256, x / 0x100_0000_0000 % 256, x / 0x1_0000_0000 % 256,
      x / 0x100_0000 % 256, x / 0x1_0000 % 256, x / 0x100 % 256, x % 256]
  {
    hide ToBigEndian, Exp2;
    ExpSmall();
    var high := x / 0x1_0000_0000;
    BigEndianFour(high);
    BigEndianSplit(x, 4, 4);
    BigEndianFour(x);
    HighDigits(x);
  }

  lemma HighDigits(x: nat)
    ensures var high := x / 0x1_0000_0000;
            && high / 0x100_0000 == x / 0x100_0000_0000_0000 && high / 0x1_0000 == x / 0x1_0000_0000_0000
            && high / 0x100 == x / 0x100_0000_0000
  {
  }

  lemma {:induction false} BigEndianFour(x: nat)
    ensures ToBigEndian(x, 4) == [x / 0x100_0000 % 256, x / 0x1_0000 % 256, x / 0x100 % 256, x % 256]
  {
    assert ToBigEndian(x, 4) == ToBigEndian(x / 0x100, 3) + [x % 256];
    assert ToBigEndian(x / 0x100, 3) == ToBigEndian(x / 0x100 / 0x100, 2) + [x / 0x100 % 256];
    assert x / 0x100 / 0x100 == x / 0x1_0000 && x / 0x1_0000 / 0x100 == x / 0x100_0000;
    assert ToBigEndian(x / 0x1_0000, 2) == ToBigEndian(x / 0x100_0000, 1) + [x / 0x1_0000 % 256];
    assert ToBigEndian(x / 0x100_0000, 1) == ToBigEndian(x / 0x100_0000 / 0x100, 0) + [x / 0x100_0000 % 256];
  }

  lemma {:induction false} BigEndianSplit(x: nat, m: nat, n: nat)
    ensures x / Exp2(8 * n) >= 0
    ensures ToBigEndian(x, m + n) == ToBigEndian(x / Exp2(8 * n), m) + ToBigEndian(x, n)
    decreases n
  {
    ExpSmall();
    if n > 0 {
      BigEndianSplit(x / 256, m, n - 1);
      ExpAdd(8, 8 * (n - 1));
      assert 8 + 8 * (n - 1) == 8 * n;
      DivTwice(x, 256, Exp2(8 * (n - 1)));
    }
  }

  // ----- one block -----

  ghost function VarsAt(S: seq<word>, a: nat, b: nat, c: nat, d: nat, e: nat, f: nat, g: nat, h: nat): Vars
    requires |S| == 8 && a < 8 && b < 8 && c < 8 && d < 8 && e < 8 && f < 8 && g < 8 && h < 8
  {
    Vars(S[a], S[b], S[c], S[d], S[e], S[f], S[g], S[h])
  }

  // RND: one round without moving the registers. Read with the names rotated by one place, the array then holds
  // the working variables of the next round.
  method RoundInPlace(S: array<word>, a: nat, b: nat, c: nat, d: nat, e: nat, f: nat, g: nat, h: nat, k: word, w: word)
    requires S.Length == 8 && a < 8 && b < 8 && c < 8 && d < 8 && e < 8 && f < 8 && g < 8 && h < 8
    requires d != a && d != b && d != c && d != e && d != f && d != g && d != h
    requires h != a && h != b && h != c && h != e && h != f && h != g
    modifies S
    ensures VarsAt(S[..], h, a, b, c, d, e, f, g) == Round(VarsAt(old(S[..]), a, b, c, d, e, f, g, h), k, w)
  {
    hide BigSigma0, BigSigma1, SmallSigma0, SmallSigma1, Ch, Maj, MacroCh, MacroMaj, Plus,
         MacroSigma0, MacroSigma1, MacroGamma0, MacroGamma1;
    MacroMeaning(S[e], S[f], S[g]);
    MacroMeaning(S[a], S[b], S[c]);
    MacroRotations(S[e]);
    MacroRotations(S[a]);
    var t0 := Plus(Plus(Plus(Plus(S[h], MacroSigma1(S[e])), MacroCh(S[e], S[f], S[g])), k), w);
    var t1 := Plus(MacroSigma0(S[a]), MacroMaj(S[a], S[b], S[c]));
    S[d] := Plus(S[d], t0);
    S[h] := Plus(t0, t1);
  }

  // The message schedule, in place.
  method FillSchedule(buf: seq<byte>, W: array<word>)
    requires |buf| == 128 && W.Length == 80
    modifies W
    ensures W[..] == Schedule(buf, 80)
  {
    hide *;
    var i := 0;
    ScheduleStart(buf);
    while i < 16
      invariant 0 <= i <= 16
      invariant W[..i] == Schedule(buf, i)
    {
      W[i] := Load64(buf, 8 * i);
      ScheduleLoad(buf, i);
      assert W[..i + 1] == W[..i] + [W[i]];
      i := i + 1;
    }
    while i < 80
      invariant 16 <= i <= 80
      invariant W[..i] == Schedule(buf, i)
    {
      ghost var w := W[..i];
      MacroRotations(W[i - 2]);
      MacroRotations(W[i - 15]);
      W[i] := Plus(Plus(Plus(MacroGamma1(W[i - 2]), W[i - 7]), MacroGamma0(W[i - 15])), W[i - 16]);
      assert w[i - 2] == W[i - 2] && w[i - 7] == W[i - 7] && w[i - 15] == W[i - 15] && w[i - 16] == W[i - 16];
      ScheduleMix(buf, i);
      assert W[..i + 1] == w + [W[i]];
      i := i + 1;
    }
    assert W[..80] == W[..];
  }

  lemma {:induction false} ScheduleStart(block: seq<byte>)
    requires |block| == 128
    ensures Schedule(block, 0) == []
  {
  }

  lemma ScheduleLoad(block: seq<byte>, i: nat)
    requires |block| == 128 && i < 16
    ensures BigEndian(block[8 * i..8 * i + 8]) < 0x1_0000_0000_0000_0000
    ensures Schedule(block, i + 1) == Schedule(block, i) + [ToWord(BigEndian(block[8 * i..8 * i + 8]))]
  {
    hide BigEndian, ToWord;
    BigEndianBound(block[8 * i..8 * i + 8]);
  }

  lemma ScheduleMix(block: seq<byte>, i: nat)
    requires |block| == 128 && 16 <= i < 80
    ensures var w := Schedule(block, i);
            Schedule(block, i + 1)
                == w + [Plus(Plus(Plus(SmallSigma1(w[i - 2]), w[i - 7]), SmallSigma0(w[i - 15])), w[i - 16])]
  {
    hide SmallSigma0, SmallSigma1, Plus, BlockWord;
  }

  // The eighty rounds, eight at a time with the registers rotated through the array.
  method RunRounds(S: array<word>, W: seq<word>)
    requires S.Length == 8 && |W| == 80
    modifies S
    ensures VarsAt(S[..], 0, 1, 2, 3, 4, 5, 6, 7) == Rounds(VarsAt(old(S[..]), 0, 1, 2, 3, 4, 5, 6, 7), W, 80)
  {
    hide *;
    ConstantLengths();
    ghost var v := VarsAt(S[..], 0, 1, 2, 3, 4, 5, 6, 7);
    RoundsStart(v, W);
    var i := 0;
    while i < 80
      invariant 0 <= i <= 80 && i % 8 == 0
      invariant VarsAt(S[..], 0, 1, 2, 3, 4, 5, 6, 7) == Rounds(v, W, i)
    {
      RoundsNext(v, W, i);
      RoundInPlace(S, 0, 1, 2, 3, 4, 5, 6, 7, K[i], W[i]);
      RoundInPlace(S, 7, 0, 1, 2, 3, 4, 5, 6, K[i + 1], W[i + 1]);
      RoundInPlace(S, 6, 7, 0, 1, 2, 3, 4, 5, K[i + 2], W[i + 2]);
      RoundInPlace(S, 5, 6, 7, 0, 1, 2, 3, 4, K[i + 3], W[i + 3]);
      RoundInPlace(S, 4, 5, 6, 7, 0, 1, 2, 3, K[i + 4], W[i + 4]);
      RoundInPlace(S, 3, 4, 5, 6, 7, 0, 1, 2, K[i + 5], W[i + 5]);
      RoundInPlace(S, 2, 3, 4, 5, 6, 7, 0, 1, K[i + 6], W[i + 6]);
      RoundInPlace(S, 1, 2, 3, 4, 5, 6, 7, 0, K[i + 7], W[i + 7]);
      i := i + 8;
    }
  }

  lemma {:induction false} RoundsStart(v: Vars, w: seq<word>)
    ensures Rounds(v, w, 0) == v
  {
  }

  // Eight rounds of the specification.
  lemma RoundsNext(v: Vars, w: seq<word>, i: nat)
    requires |w| == 80 && |K| == 80 && i + 8 <= 80
    ensures Rounds(v, w, i + 8) == Round(Round(Round(Round(Round(Round(Round(Round(Rounds(v, w, i),
              K[i], w[i]), K[i + 1], w[i + 1]), K[i + 2], w[i + 2]), K[i + 3], w[i + 3]),
              K[i + 4], w[i + 4]), K[i + 5], w[i + 5]), K[i + 6], w[i + 6]), K[i + 7], w[i + 7])
  {
    hide Round;
    var k := K;
    RoundsOne(v, w, i);
    RoundsOne(v, w, i + 1);
    RoundsOne(v, w, i + 2);
    RoundsOne(v, w, i + 3);
    RoundsOne(v, w, i + 4);
    RoundsOne(v, w, i + 5);
    RoundsOne(v, w, i + 6);
    RoundsOne(v, w, i + 7);
  }

  lemma RoundsOne(v: Vars, w: seq<word>, i: nat)
    requires |w| == 80 && |K| == 80 && i < 80
    ensures Rounds(v, w, i + 1) == Round(Rounds(v, w, i), K[i], w[i])
  {
    hide Round;
  }

  // ----- the blocks of a message -----

  lemma BlocksStart()
    ensures HashBlocks([]) == INITIAL && |INITIAL| == 8
  {
    ConstantLengths();
  }

  lemma {:induction false} BlocksNext(s: seq<byte>, block: seq<byte>)
    requires |s| % 128 == 0 && |block| == 128
    ensures HashBlocks(s + block) == Compress(HashBlocks(s), block)
  {
    hide Compress;
    assert (s + block)[..|s|] == s && (s + block)[|s|..] == block;
  }

  // 2^64
  const WORD64: nat := 0x1_0000_0000_0000_0000

  lemma LengthGrows(n: nat, c: nat)
    ensures (8 * n % WORD64 + 8 * c) % WORD64 == 8 * (n + c) % WORD64
  {
  }

  // The buffer of the last block, or of the last two, is the end of the padded message.
  lemma {:induction false} PadOneBlock(head: seq<byte>, tail: seq<byte>, bits: nat)
    requires |head| % 128 == 0 && |tail| < 112 && bits < WORD64
    ensures Padded(head + tail, bits) == head + (tail + [0x80] + Zeros(119 - |tail|) + ToBigEndian(bits, 8))
  {
    hide ToBigEndian;
    ZeroCount(|head|, |tail|, 111 - |tail|);
    HighLength(bits);
    ZerosJoin(111 - |tail|, 8);
    assert 111 - |tail| + 8 == 119 - |tail|;
  }

  lemma {:induction false} PadTwoBlocks(head: seq<byte>, tail: seq<byte>, bits: nat)
    requires |head| % 128 == 0 && 112 <= |tail| < 128 && bits < WORD64
    ensures Padded(head + tail, bits)
            == (head + (tail + [0x80] + Zeros(127 - |tail|))) + (Zeros(120) + ToBigEndian(bits, 8))
  {
    hide ToBigEndian;
    ZeroCount(|head|, |tail|, 239 - |tail|);
    HighLength(bits);
    ZerosJoin(239 - |tail|, 8);
    ZerosJoin(127 - |tail|, 120);
    assert 239 - |tail| + 8 == 127 - |tail| + 120;
  }

  lemma ZeroCount(n: nat, m: nat, z: nat)
    requires n % 128 == 0 && z < 128 && (m + z) % 128 == 111
    ensures (111 - (n + m)) % 128 == z
  {
  }

  lemma ZerosJoin(m: nat, n: nat)
    ensures Zeros(m) + Zeros(n) == Zeros(m + n)
  {
  }

  lemma {:induction false} HighLength(bits: nat)
    requires bits < WORD64
    ensures ToBigEndian(bits, 16) == Zeros(8) + ToBigEndian(bits, 8)
  {
    hide ToBigEndian;
    ExpSmall();
    ExpAdd(32, 32);
    BigEndianSplit(bits, 8, 8);
    BigEndianZero(8);
  }

  lemma {:induction false} BigEndianInjective(x: nat, y: nat, n: nat)
    requires x < Exp2(8 * n) && y < Exp2(8 * n) && ToBigEndian(x, n) == ToBigEndian(y, n)
    ensures x == y
    decreases n
  {
    if n > 0 {
      ExpSmall();
      ExpAdd(8, 8 * (n - 1));
      var s, t := ToBigEndian(x / 256, n - 1), ToBigEndian(y / 256, n - 1);
      assert (s + [x % 256])[..n - 1] == s && (t + [y % 256])[..n - 1] == t;
      assert (s + [x % 256])[n - 1] == (t + [y % 256])[n - 1];
      BigEndianInjective(x / 256, y / 256, n - 1);
    }
  }

  // What is hashed is the standard's padded message exactly below 2^64 bits. The standard ends at 2^128 bits.
  lemma {:induction false} PaddingStandardExactly(message: seq<byte>)
    requires 8 * |message| < WORD64 * WORD64
    ensures Padded(message, 8 * |message| % WORD64) == Padded(message, 8 * |message|) <==> 8 * |message| < WORD64
  {
    hide ToBigEndian, Zeros, Exp2;
    var bits := 8 * |message|;
    var front := message + [0x80] + Zeros((111 - |message|) % 128);
    if Padded(message, bits % WORD64) == Padded(message, bits) {
      assert Padded(message, bits)[|front|..] == ToBigEndian(bits, 16);
      assert Padded(message, bits % WORD64)[|front|..] == ToBigEndian(bits % WORD64, 16);
      ExpSmall();
      ExpAdd(32, 32);
      ExpAdd(64, 64);
      BigEndianInjective(bits % WORD64, bits, 16);
    }
  }

  lemma WordsSnoc(s: seq<word>, i: nat)
    requires i < |s|
    ensures WordsToBytes(s[..i + 1]) == WordsToBytes(s[..i]) + ToBigEndian(FromWord(s[i]), 8)
  {
    assert s[..i + 1][..i] == s[..i];
  }

  lemma {:induction false} NoWords(s: seq<word>)
    requires s == []
    ensures WordsToBytes(s) == []
  {
  }

  // ----- the context -----

  class Context {
    var length: nat
    var curlen: nat
    const state: array<word>
    const buf: array<byte>
    ghost var message: seq<byte>

    // The shape of the structure, before sha512_init.
    ghost predicate Allocated()
    {
      state.Length == 8 && buf.Length == 128
    }

    ghost predicate Valid()
      reads this, state, buf
    {
      curlen < 128 && curlen <= |message| && Holds(message[..|message| - curlen], message[|message| - curlen..])
    }

    // The blocks of head are compressed, tail waits in the buffer.
    ghost predicate Holds(head: seq<byte>, tail: seq<byte>)
      reads this, state, buf
    {
      && Allocated()
      && |tail| == curlen <= 128 && |head| % 128 == 0 && message == head + tail
      && length == 8 * |head| % WORD64
      && state[..] == HashBlocks(head)
      && buf[..curlen] == tail
    }

    lemma ValidHolds() returns (head: seq<byte>, tail: seq<byte>)
      requires Valid()
      ensures Holds(head, tail) && |tail| == curlen < 128 && Allocated()
    {
      head, tail := message[..|message| - curlen], message[|message| - curlen..];
    }

    lemma HoldsValid(head: seq<byte>, tail: seq<byte>)
      requires Holds(head, tail) && curlen < 128
      ensures Valid()
    {
      hide HashBlocks;
      assert message[..|message| - curlen] == head && message[|message| - curlen..] == tail;
    }

    constructor ()
      ensures Allocated() && fresh(state) && fresh(buf)
    {
      state := new word[8];
      buf := new byte[128];
      length, curlen, message := 0, 0, [];
    }

    // sha512_init
    method Init() returns (err: int)
      requires Allocated()
      modifies this, state
      ensures Valid() && message == [] && err == 0
    {
      hide HashBlocks;
      BlocksStart();
      curlen := 0;
      length := 0;
      forall i | 0 <= i < 8 {
        state[i] := INITIAL[i];
      }
      message := [];
      assert state[..] == INITIAL;
      assert message[..0] == [];
      err := 0;
    }

    // sha512_compress
    method CompressBlock(block: seq<byte>)
      requires Allocated() && |block| == 128
      modifies state
      ensures state[..] == Compress(old(state[..]), block)
    {
      hide Compress, Schedule, Rounds, Plus, VarsAt, Round;
      ghost var before := state[..];
      var S := new word[8];
      forall i | 0 <= i < 8 {
        S[i] := state[i];
      }
      assert S[..] == before;
      var W := new word[80];
      FillSchedule(block, W);
      RunRounds(S, W[..]);
      Feedback(S, before, block);
    }

    // state[i] = state[i] + S[i]
    method Feedback(S: array<word>, ghost before: seq<word>, ghost block: seq<byte>)
      requires Allocated() && S.Length == 8 && |block| == 128 && state != S && state[..] == before
      requires VarsAt(S[..], 0, 1, 2, 3, 4, 5, 6, 7)
              == Rounds(VarsAt(before, 0, 1, 2, 3, 4, 5, 6, 7), Schedule(block, 80), 80)
      modifies state
      ensures state[..] == Compress(before, block)
    {
      hide Schedule, Rounds, Plus;
      forall i | 0 <= i < 8 {
        state[i] := Plus(state[i], S[i]);
      }
      assert forall i :: 0 <= i < 8 ==> state[i] == Plus(before[i], S[i]);
      CompressWords(before, S[..], block, state[..]);
    }

    // Compressing a block that continues the message.
    method TakeBlock(block: seq<byte>, ghost before: seq<byte>, ghost after: seq<byte>)
      requires Allocated() && |block| == 128 && |before| % 128 == 0 && after == before + block && |after| % 128 == 0
      requires length == 8 * |before| % WORD64 && state[..] == HashBlocks(before)
      modifies this`length, state
      ensures length == 8 * |after| % WORD64 && state[..] == HashBlocks(after)
    {
      hide HashBlocks, Compress;
      CompressBlock(block);
      BlocksNext(before, block);
      LengthGrows(|before|, 128);
      length := (length + 128 * 8) % WORD64;
    }

    // sha512_update
    method Update(data: seq<byte>) returns (err: int)
      requires Valid()
      modifies this, state, buf
      ensures Valid() && message == old(message) + data && err == 0
    {
      hide Valid, Holds;
      ghost var _, _ := ValidHolds();
      if curlen > 128 {
        return 1;
      }
      var at, inlen := 0, |data|;
      assert data[..0] == [];
      while inlen > 0
        invariant 0 <= at && inlen == |data| - at >= 0
        invariant Valid() && message == old(message) + data[..at]
        decreases inlen
      {
        var n;
        ghost var head, tail := ValidHolds();
        if curlen == 0 && inlen >= 128 {
          n := 128;
          WholeBlock(data[at..at + 128], head, tail);
        } else {
          n := if inlen < 128 - curlen then inlen else 128 - curlen;
          Fill(data[at..at + n], head, tail);
        }
        assert data[..at + n] == data[..at] + data[at..at + n];
        at := at + n;
        inlen := inlen - n;
      }
      assert data[..at] == data;
      err := 0;
    }

    // A block hashed straight from the input.
    method WholeBlock(block: seq<byte>, ghost head: seq<byte>, ghost tail: seq<byte>)
      requires Holds(head, tail) && curlen == 0 && |block| == 128
      modifies this, state
      ensures Valid() && message == old(message) + block
    {
      hide HashBlocks, Valid;
      ghost var next := head + block;
      TakeBlock(block, head, next);
      message := message + block;
      assert message == next + [];
      HoldsValid(next, []);
    }

    // Input into the buffer, which is hashed when it is full.
    method Fill(part: seq<byte>, ghost head: seq<byte>, ghost tail: seq<byte>)
      requires Holds(head, tail) && 0 < |part| <= 128 - curlen
      modifies this, state, buf
      ensures Valid() && message == old(message) + part
    {
      hide Valid, Holds;
      Append(part, head, tail);
      if curlen == 128 {
        Flush(head, tail + part);
      } else {
        HoldsValid(head, tail + part);
      }
    }

    method Append(part: seq<byte>, ghost head: seq<byte>, ghost tail: seq<byte>)
      requires Holds(head, tail) && |part| <= 128 - curlen
      modifies this`curlen, this`message, buf
      ensures Holds(head, tail + part) && message == old(message) + part && curlen == old(curlen) + |part|
    {
      hide HashBlocks;
      forall i | 0 <= i < |part| {
        buf[curlen + i] := part[i];
      }
      curlen := curlen + |part|;
      message := message + part;
      assert buf[..curlen] == tail + part;
      assert message == head + (tail + part);
    }

    method Flush(ghost head: seq<byte>, ghost tail: seq<byte>)
      requires Holds(head, tail) && curlen == 128
      modifies this`length, this`curlen, state
      ensures Valid() && message == old(message)
      ensures Holds(head + tail, []) && curlen == 0
    {
      hide HashBlocks, Valid;
      assert buf[..] == buf[..curlen];
      TakeBlock(buf[..], head, head + tail);
      curlen := 0;
      assert head + tail + [] == head + tail;
      HoldsValid(head + tail, []);
    }

    // sha512_final: the digest of everything hashed, with the length field modulo 2^64.
    method Final(out: array<byte>) returns (err: int)
      requires Valid() && out.Length == 64 && out != buf
      modifies this, state, buf, out
      ensures err == 0 && Allocated()
      ensures out[..] == DigestOf(old(message), 8 * |old(message)| % WORD64)
      ensures 8 * |old(message)| < WORD64 ==> out[..] == Sha512(old(message))
    {
      hide HashBlocks, Valid, Padded, WordsToBytes, ToBigEndian, Zeros;
      ghost var head, tail := ValidHolds();
      if curlen >= 128 {
        return 1;
      }
      LengthGrows(|head|, |tail|);
      length := (length + curlen * 8) % WORD64;
      MarkEnd(head, tail);
      var full: bool := curlen > 112;
      if full {
        FinishBlock(head, tail);
      }
      LastBlock(head, tail, full);
      WriteWords(state, out);
      err := 0;
    }

    // The buffer holds tail, and the blocks of head are in the state.
    ghost predicate Padding(head: seq<byte>, tail: seq<byte>)
      reads this, state, buf
    {
      Allocated() && |head| % 128 == 0 && state[..] == HashBlocks(head) && |tail| == curlen <= 128
          && buf[..curlen] == tail
    }

    // md->buf[md->curlen++] = 0x80
    method MarkEnd(ghost head: seq<byte>, ghost tail: seq<byte>)
      requires Padding(head, tail) && curlen < 128
      modifies this`curlen, buf
      ensures Padding(head, tail + [0x80]) && curlen == old(curlen) + 1
    {
      hide HashBlocks;
      buf[curlen] := 0x80;
      curlen := curlen + 1;
      assert buf[..curlen] == tail + [0x80];
    }

    // Zero bytes up to position n.
    method ZeroFill(n: nat, ghost head: seq<byte>, ghost tail: seq<byte>)
      requires Padding(head, tail) && curlen <= n <= 128
      modifies this`curlen, buf
      ensures Padding(head, tail + Zeros(n - |tail|)) && curlen == n
    {
      hide HashBlocks;
      while curlen < n
        invariant |tail| <= curlen <= n
        invariant Padding(head, tail + Zeros(curlen - |tail|))
      {
        ghost var so := tail + Zeros(curlen - |tail|);
        buf[curlen] := 0;
        curlen := curlen + 1;
        assert buf[..curlen] == so + [0] == tail + Zeros(curlen - |tail|);
      }
    }

    // The first of two padding blocks.
    method FinishBlock(ghost head: seq<byte>, ghost tail: seq<byte>)
      requires Padding(head, tail + [0x80]) && |tail| >= 112
      modifies this`curlen, state, buf
      ensures Padding(head + (tail + [0x80] + Zeros(127 - |tail|)), []) && curlen == 0
    {
      hide HashBlocks, Zeros, Compress;
      ghost var marked := tail + [0x80];
      ghost var block := marked + Zeros(127 - |tail|);
      assert 128 - |marked| == 127 - |tail|;
      ZeroFill(128, head, marked);
      assert buf[..] == buf[..128];
      CompressBlock(buf[..]);
      BlocksNext(head, block);
      curlen := 0;
    }

    // The block that ends with the length.
    method LastBlock(ghost head: seq<byte>, ghost tail: seq<byte>, ghost full: bool)
      requires |head| % 128 == 0 && |tail| < 128 && length < WORD64 && full == (|tail| >= 112)
      requires full ==> Padding(head + (tail + [0x80] + Zeros(127 - |tail|)), [])
      requires !full ==> Padding(head, tail + [0x80])
      modifies this`curlen, state, buf
      ensures state[..] == HashBlocks(Padded(head + tail, length))
    {
      hide HashBlocks, Padded, Zeros, ToBigEndian, Compress;
      ghost var done, rest := head, tail + [0x80];
      if full {
        done, rest := head + (tail + [0x80] + Zeros(127 - |tail|)), [];
        PadTwoBlocks(head, tail, length);
      } else {
        PadOneBlock(head, tail, length);
      }
      ZeroFill(120, done, rest);
      ghost var zeros := rest + Zeros(120 - |rest|);
      Store64(length, buf, 120);
      ghost var block := zeros + ToBigEndian(length, 8);
      assert buf[..] == buf[..120] + buf[120..128];
      assert buf[..] == block;
      CompressBlock(buf[..]);
      BlocksNext(done, block);
      assert full ==> zeros == Zeros(120);
    }
  }

  // Eight STORE64H of the state.
  method WriteWords(state: array<word>, out: array<byte>)
    requires state.Length == 8 && out.Length == 64
    modifies out
    ensures out[..] == WordsToBytes(state[..])
  {
    hide *;
    ghost var words := state[..];
    NoWords(words[..0]);
    var i := 0;
    while i < 8
      invariant 0 <= i <= 8 && state[..] == words
      invariant out[..8 * i] == WordsToBytes(words[..i])
    {
      Store64(FromWord(state[i]), out, 8 * i);
      WordsSnoc(words, i);
      assert out[..8 * (i + 1)] == out[..8 * i] + out[8 * i..8 * i + 8];
      i := i + 1;
    }
    assert words[..8] == words && out[..64] == out[..];
  }

  // sha512
  method Hash(data: seq<byte>, out: array<byte>) returns (err: int)
    requires out.Length == 64
    modifies out
    ensures err == 0
    ensures 8 * |data| < WORD64 ==> out[..] == Sha512(data)
  {
    hide DigestOf, Sha512Spec.Sha512;
    var ctx := new Context();
    err := ctx.Init();
    err := ctx.Update(data);
    assert [] + data == data;
    err := ctx.Final(out);
  }

  lemma {:induction false} CompressWords(before: seq<word>, S: seq<word>, block: seq<byte>, after: seq<word>)
    requires |before| == 8 && |S| == 8 && |after| == 8 && |block| == 128
    requires forall i :: 0 <= i < 8 ==> after[i] == Plus(before[i], S[i])
    requires VarsAt(S, 0, 1, 2, 3, 4, 5, 6, 7)
            == Rounds(VarsAt(before, 0, 1, 2, 3, 4, 5, 6, 7), Schedule(block, 80), 80)
    ensures after == Compress(before, block)
  {
    hide Schedule, Rounds, Plus;
  }
}
