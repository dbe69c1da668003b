// The example of FIPS 180-4 for SHA-512: the message "abc", one block, and its digest. The words of the schedule and
// the variables after every eighth round are those the standard's example prints.
module Sha512Example {
  import opened Bytes
  import opened Sha512Spec
  import Sha512Constants

  const ABC: seq<byte> := [0x61, 0x62, 0x63]

  ghost function Block(): (s: seq<byte>)
    ensures |s| == 128
  {
    ABC + [0x80] + Zeros(108) + ToBigEndian(24, 16)
  }

  ghost function Word(t: nat): word
    requires t < 80
  {
    Schedule(Block(), 80)[t]
  }

  lemma {:induction false} SchedulePrefix(m: nat, n: nat)
    requires m <= n
    ensures Schedule(Block(), n)[..m] == Schedule(Block(), m)
    decreases n
  {
    hide Block, ScheduleWord;
    if m < n {
      SchedulePrefix(m, n - 1);
    }
  }

  lemma {:induction false} WordMeaning(t: nat)
    requires t < 80
    ensures Word(t) == ScheduleWord(Block(), Schedule(Block(), t))
  {
    hide Block, ScheduleWord;
    SchedulePrefix(t + 1, 80);
    assert Schedule(Block(), t + 1)[t] == ScheduleWord(Block(), Schedule(Block(), t));
  }

  lemma LaterWord(t: nat)
    requires 16 <= t < 80
    ensures Word(t) == Plus(Plus(Plus(SmallSigma1(Word(t - 2)), Word(t - 7)), SmallSigma0(Word(t - 15))), Word(t - 16))
  {
    hide Block, SmallSigma0, SmallSigma1, Plus, BlockWord;
    WordMeaning(t);
    SchedulePrefix(t, 80);
  }

  lemma {:induction false} FirstWord(t: nat, n: nat)
    requires t < 16 && n < 0x1_0000_0000_0000_0000 && Block()[8 * t..8 * t + 8] == ToBigEndian(n, 8)
    ensures Word(t) == ToWord(n)
  {
    hide Block, ToWord;
    WordMeaning(t);
    EightBytes(n);
  }

  lemma {:induction false} EightBytes(n: nat)
    requires n < 0x1_0000_0000_0000_0000
    ensures BigEndian(ToBigEndian(n, 8)) == n
  {
    ExpSmall();
    ExpAdd(32, 32);
    BigEndianValue(n, 8);
  }

  lemma {:induction false} BigEndianValue(n: nat, k: nat)
    requires n < Exp2(8 * k)
    ensures BigEndian(ToBigEndian(n, k)) == n
    decreases k
  {
    if k > 0 {
      ExpSmall();
      ExpAdd(8, 8 * (k - 1));
      BigEndianValue(n / 256, k - 1);
      var s := ToBigEndian(n, k);
      assert s[..k - 1] == ToBigEndian(n / 256, k - 1);
    }
  }

  lemma Words16()
    ensures Word(16) == 0x6162638000000000 && Word(17) == 0x00030000000000c0
    ensures Word(18) == 0x0a9699a24c700003 && Word(19) == 0x00000c0060000603
    ensures Word(20) == 0x549ef62639858996 && Word(21) == 0x00c0003300003c00
    ensures Word(22) == 0x1497007a8a0e9dbc && Word(23) == 0x62e56500cc0780f0
  {
    hide Word;
    BlockWords();
    LaterWord(16);
    LaterWord(17);
    LaterWord(18);
    LaterWord(19);
    LaterWord(20);
    LaterWord(21);
    LaterWord(22);
    LaterWord(23);
  }

  lemma Words24()
    ensures Word(24) == 0x7760dd475a538797 && Word(25) == 0xf1554b711c1c0003
    ensures Word(26) == 0xca2993a4345d9ff2 && Word(27) == 0x5e0e66b5c783dd32
    ensures Word(28) == 0xe25a625d00494b62 && Word(29) == 0x9f44486fb1e4fbd2
    ensures Word(30) == 0xb31b8c2b06085f2f && Word(31) == 0x0e987660934142f6
  {
    hide Word;
    BlockWords();
    Words16();
    LaterWord(24);
    LaterWord(25);
    LaterWord(26);
    LaterWord(27);
    LaterWord(28);
    LaterWord(29);
    LaterWord(30);
    LaterWord(31);
  }

  lemma Words32()
    ensures Word(32) == 0xa4af2cfd09fbb924 && Word(33) == 0xad289e2e0bd53186
    ensures Word(34) == 0x3c74563aa2f9673e && Word(35) == 0x6ccdcd14cc14b53f
    ensures Word(36) == 0xc3f925b337f22bde && Word(37) == 0x5bcc77a75ad95b54
    ensures Word(38) == 0x3ec2257adca09a52 && Word(39) == 0x28246960001fc5eb
  {
    hide Word;
    Words16();
    Words24();
    LaterWord(32);
    LaterWord(33);
    LaterWord(34);
    LaterWord(35);
    LaterWord(36);
    LaterWord(37);
    LaterWord(38);
    LaterWord(39);
  }

  lemma Words40()
    ensures Word(40) == 0x04e33a75ce2be88a && Word(41) == 0x7d5314b3c359e0e7
    ensures Word(42) == 0xaef7a285ff251266 && Word(43) == 0x0b8472581deea04f
    ensures Word(44) == 0xb174e26eddc7b033 && Word(45) == 0x5d63bae58ddd88de
    ensures Word(46) == 0x4c044007b744ccbb && Word(47) == 0xe6a9aa4d74dc7d43
  {
    hide Word;
    Words24();
    Words32();
    LaterWord(40);
    LaterWord(41);
    LaterWord(42);
    LaterWord(43);
    LaterWord(44);
    LaterWord(45);
    LaterWord(46);
    LaterWord(47);
  }

  lemma Words48()
    ensures Word(48) == 0xebeaf1237248019c && Word(49) == 0x361e80b2d00f3193
    ensures Word(50) == 0x2e9839125df3b175 && Word(51) == 0x3319629293ad5363
    ensures Word(52) == 0x9cbc5d89ac1b89d5 && Word(53) == 0x275e23ffeeca50b7
    ensures Word(54) == 0x3b80d680bf69ef58 && Word(55) == 0x0d0696933945a125
  {
    hide Word;
    Words32();
    Words40();
    LaterWord(48);
    LaterWord(49);
    LaterWord(50);
    LaterWord(51);
    LaterWord(52);
    LaterWord(53);
    LaterWord(54);
    LaterWord(55);
  }

  lemma Words56()
    ensures Word(56) == 0x7533eabcb786ff00 && Word(57) == 0xb89826cee6fbf0e5
    ensures Word(58) == 0x249b4fbcad623e9f && Word(59) == 0x4aea9df2b02d6f1e
    ensures Word(60) == 0x2cc57475a55e8d8f && Word(61) == 0xb2574ae938d8be89
    ensures Word(62) == 0xc1b35a57b16d6aea && Word(63) == 0xcc4918b5949206bb
  {
    hide Word;
    Words40();
    Words48();
    LaterWord(56);
    LaterWord(57);
    LaterWord(58);
    LaterWord(59);
    LaterWord(60);
    LaterWord(61);
    LaterWord(62);
    LaterWord(63);
  }

  lemma Words64()
    ensures Word(64) == 0x5099c3add79f90ec && Word(65) == 0x5ea81d78e7660bf1
    ensures Word(66) == 0xebee6267405ac2a9 && Word(67) == 0xb01f21926108a4ab
    ensures Word(68) == 0x786433dd2fe65556 && Word(69) == 0xc54a6eaa24a0552c
    ensures Word(70) == 0xb3c8f1530bdbaa9e && Word(71) == 0xbb8abfe56f469338
  {
    hide Word;
    Words48();
    Words56();
    LaterWord(64);
    LaterWord(65);
    LaterWord(66);
    LaterWord(67);
    LaterWord(68);
    LaterWord(69);
    LaterWord(70);
    LaterWord(71);
  }

  lemma Words72()
    ensures Word(72) == 0xf63d4265cc1c5a78 && Word(73) == 0xbe8355ea73129afb
    ensures Word(74) == 0x49e2db8ebdcfbeb5 && Word(75) == 0x82269d4a883a3d99
    ensures Word(76) == 0xfdf53df3011f362b && Word(77) == 0x464af5671d71c12e
    ensures Word(78) == 0xe449b68198ec611c && Word(79) == 0x92aeeed1a7bcf7d2
  {
    hide Word;
    Words56();
    Words64();
    LaterWord(72);
    LaterWord(73);
    LaterWord(74);
    LaterWord(75);
    LaterWord(76);
    LaterWord(77);
    LaterWord(78);
    LaterWord(79);
  }

  lemma BlockWords()
    ensures Word(0) == 0x6162638000000000 && Word(15) == 0x18
    ensures Word(1) == 0 && Word(2) == 0 && Word(3) == 0 && Word(4) == 0 && Word(5) == 0 && Word(6) == 0 && Word(7) == 0
    ensures Word(8) == 0 && Word(9) == 0 && Word(10) == 0 && Word(11) == 0 && Word(12) == 0 && Word(13) == 0
    ensures Word(14) == 0
  {
    hide Word, Block;
    BlockParts();
    FirstWord(0, 0x6162638000000000);
    FirstWord(15, 24);
    ZeroWord(1); ZeroWord(2); ZeroWord(3); ZeroWord(4); ZeroWord(5); ZeroWord(6); ZeroWord(7);
    ZeroWord(8); ZeroWord(9); ZeroWord(10); ZeroWord(11); ZeroWord(12); ZeroWord(13); ZeroWord(14);
  }

  lemma ZeroWord(t: nat)
    requires 1 <= t < 15
    ensures Word(t) == 0
  {
    hide Word, Block, ToBigEndian, Zeros;
    BigEndianZero(8);
    ZeroPart(t);
    FirstWord(t, 0);
  }

  lemma ZeroPart(t: nat)
    requires 1 <= t < 15
    ensures Block()[8 * t..8 * t + 8] == Zeros(8)
  {
    hide ToBigEndian;
    LengthWord(16);
    forall i | 8 * t <= i < 8 * t + 8 ensures Block()[i] == 0 {
      if i >= 112 {
        assert Block()[i] == ToBigEndian(24, 16)[i - 112];
      }
    }
  }

  lemma BlockParts()
    ensures Block()[0..8] == ToBigEndian(0x6162638000000000, 8) && Block()[120..128] == ToBigEndian(24, 8)
  {
    MessageWord();
    LengthWord(16);
    LengthWord(8);
  }

  lemma MessageWord()
    ensures ToBigEndian(0x6162638000000000, 8) == [0x61, 0x62, 0x63, 0x80, 0, 0, 0, 0]
  {
    assert ToBigEndian(0x61, 1) == [0x61];
    assert ToBigEndian(0x6162, 2) == [0x61, 0x62];
    assert ToBigEndian(0x616263, 3) == [0x61, 0x62, 0x63];
    assert ToBigEndian(0x61626380, 4) == [0x61, 0x62, 0x63, 0x80];
    assert ToBigEndian(0x6162638000, 5) == [0x61, 0x62, 0x63, 0x80, 0];
    assert ToBigEndian(0x616263800000, 6) == [0x61, 0x62, 0x63, 0x80, 0, 0];
    assert ToBigEndian(0x61626380000000, 7) == [0x61, 0x62, 0x63, 0x80, 0, 0, 0];
  }

  lemma {:induction false} LengthWord(n: nat)
    requires n >= 1
    ensures ToBigEndian(24, n) == Zeros(n - 1) + [24]
  {
    BigEndianZero(n - 1);
  }

  ghost function After(t: nat): Vars
    requires t <= 80
  {
    Rounds(StateVars(INITIAL), Schedule(Block(), 80), t)
  }

  lemma NextRound(t: nat)
    requires t < 80
    ensures |K| == 80 && After(t + 1) == Round(After(t), K[t], Word(t))
  {
    hide Round, Block, Schedule, K;
    ConstantLengths();
  }

  lemma Rounds2()
    ensures After(2) == Vars(0x1320f8c9fb872cc0, 0xf6afceb8bcfcddf5, 0x6a09e667f3bcc908, 0xbb67ae8584caa73b,
                             0xc3d4ebfd48650ffa, 0x58cb02347ab51f91, 0x510e527fade682d1, 0x9b05688c2b3e6c1f)
  {
    hide After, Word, K, INITIAL;
    FirstVars();
    BlockWords();
    Sha512Constants.Words0();
    NextRound(0);
    NextRound(1);
  }

  lemma Rounds4()
    ensures After(4) == Vars(0x5a83cb3e80050e82, 0xebcffc07203d91f3, 0x1320f8c9fb872cc0, 0xf6afceb8bcfcddf5,
                             0x0b47b4bb1928990e, 0xdfa9b239f2697812, 0xc3d4ebfd48650ffa, 0x58cb02347ab51f91)
  {
    hide After, Word, K, INITIAL;
    Rounds2();
    BlockWords();
    Sha512Constants.Words0();
    NextRound(2);
    NextRound(3);
  }

  lemma Rounds8()
    ensures After(8) == Vars(0x8093d195e0054fa3, 0xc4875b0c7abc076b, 0xaf573b02403e89cd, 0xb680953951604860,
                             0x86f67263a0f0ec0a, 0x5a6c781f54dcc00c, 0x96f60209b6dc35ba, 0x745aca4a342ed2e2)
  {
    hide After, Word, K, INITIAL;
    Rounds4();
    BlockWords();
    Sha512Constants.Words0();
    NextRound(4);
    NextRound(5);
    NextRound(6);
    NextRound(7);
  }

  lemma Rounds16()
    ensures After(16) == Vars(0x0ae07c86b1181c75, 0xfa967eed85a08028, 0x44249631255d2ca0, 0x5e41214388186c14,
                              0xa77b7c035dd4c161, 0x874bfe5f6aae9f2f, 0x860acf9effba6f61, 0xcdf3bff2883fc9d9)
  {
    hide After, Word, K;
    Rounds8();
    BlockWords();
    Sha512Constants.Words1();
    NextRound(8);
    NextRound(9);
    NextRound(10);
    NextRound(11);
    NextRound(12);
    NextRound(13);
    NextRound(14);
    NextRound(15);
  }

  lemma Rounds24()
    ensures After(24) == Vars(0x4f6877b58fe55484, 0x3e2644567b709a78, 0xda34d6673d452dcf, 0x8dc5ae65569d3855,
                              0xc66005f87db55233, 0x0ac2b11da8f571c6, 0x8e30ff09ad488753, 0x4bb9e66d1145bfdc)
  {
    hide After, Word, K;
    Rounds16();
    Words16();
    Sha512Constants.Words2();
    NextRound(16);
    NextRound(17);
    NextRound(18);
    NextRound(19);
    NextRound(20);
    NextRound(21);
    NextRound(22);
    NextRound(23);
  }

  lemma Rounds32()
    ensures After(32) == Vars(0xff4d3f1f0d46a736, 0x4c4fbbb75f1873a6, 0x74bf40f869094c63, 0xe62349090f47d30a,
                              0x3cd388e119e8162e, 0x73e025d91b9efea3, 0xf0aec2fe1437f085, 0x0fcdf99710f21584)
  {
    hide After, Word, K;
    Rounds24();
    Words24();
    Sha512Constants.Words3();
    NextRound(24);
    NextRound(25);
    NextRound(26);
    NextRound(27);
    NextRound(28);
    NextRound(29);
    NextRound(30);
    NextRound(31);
  }

  lemma Rounds40()
    ensures After(40) == Vars(0x8e01e125b855d225, 0xb3bb8542b3376de5, 0x002bb8e4cd989567, 0x88df85b0bbe77514,
                              0x0c710a47ba6a567b, 0xb49596c20feba7de, 0x66adcfa249ac7bbd, 0x8fbfd0162bbf4675)
  {
    hide After, Word, K;
    Rounds32();
    Words32();
    Sha512Constants.Words4();
    NextRound(32);
    NextRound(33);
    NextRound(34);
    NextRound(35);
    NextRound(36);
    NextRound(37);
    NextRound(38);
    NextRound(39);
  }

  lemma Rounds48()
    ensures After(48) == Vars(0x6b69fc1bb482feac, 0xf61e672694de2d67, 0x021fbadbabab5ac6, 0xc47c9d5c7ea8a234,
                              0x35264334c03ac8ad, 0xc6bc35740d8daa9a, 0xe95c2a57572d64d9, 0x858d832ae0e8911c)
  {
    hide After, Word, K;
    Rounds40();
    Words40();
    Sha512Constants.Words5();
    NextRound(40);
    NextRound(41);
    NextRound(42);
    NextRound(43);
    NextRound(44);
    NextRound(45);
    NextRound(46);
    NextRound(47);
  }

  lemma Rounds56()
    ensures After(56) == Vars(0x63b460e42748817e, 0xf650857b5babda4d, 0xd63f68037ddf06aa, 0x03df11b32d42e203,
                              0xc6b4dd2a9931c509, 0x9ccfb31a86df0f86, 0xa6781efe1aa1ce02, 0x504f94e40591cffa)
  {
    hide After, Word, K;
    Rounds48();
    Words48();
    Sha512Constants.Words6();
    NextRound(48);
    NextRound(49);
    NextRound(50);
    NextRound(51);
    NextRound(52);
    NextRound(53);
    NextRound(54);
    NextRound(55);
  }

  lemma Rounds64()
    ensures After(64) == Vars(0xab44e86276478d85, 0xa81dedbb9f19e643, 0xcfcd928c5424e2b6, 0x3857dfd2fc37d3ba,
                              0xcd881ee59ca6bc53, 0x84058865d60a05fa, 0x09aee5bda1644de5, 0xa6af4e9c9f807e51)
  {
    hide After, Word, K;
    Rounds56();
    Words56();
    Sha512Constants.Words7();
    NextRound(56);
    NextRound(57);
    NextRound(58);
    NextRound(59);
    NextRound(60);
    NextRound(61);
    NextRound(62);
    NextRound(63);
  }

  lemma Rounds72()
    ensures After(72) == Vars(0xf15e9664b2803575, 0x7652c579cb60f19c, 0xfb6aaae5d0b6a447, 0x181839d609c79748,
                              0x947c3dfafee570ef, 0xaff62c9665ff80fa, 0xe3711cb6564d112d, 0x0ada78ba2d446140)
  {
    hide After, Word, K;
    Rounds64();
    Words64();
    Sha512Constants.Words8();
    NextRound(64);
    NextRound(65);
    NextRound(66);
    NextRound(67);
    NextRound(68);
    NextRound(69);
    NextRound(70);
    NextRound(71);
  }

  lemma Rounds80()
    ensures After(80) == Vars(0x73a54f399fa4b1b2, 0x10d9c4c4295599f6, 0xd67806db8b148677, 0x654ef9abec389ca9,
                              0xd08446aa79693ed7, 0x9bb4d39778c07f9e, 0x25c96a7768fb2aa3, 0xceb9fc3691ce8326)
  {
    hide After, Word, K;
    Rounds72();
    Words72();
    Sha512Constants.Words9();
    NextRound(72);
    NextRound(73);
    NextRound(74);
    NextRound(75);
    NextRound(76);
    NextRound(77);
    NextRound(78);
    NextRound(79);
  }

  lemma FirstVars()
    ensures After(0) == Vars(0x6a09e667f3bcc908, 0xbb67ae8584caa73b, 0x3c6ef372fe94f82b, 0xa54ff53a5f1d36f1,
                             0x510e527fade682d1, 0x9b05688c2b3e6c1f, 0x1f83d9abfb41bd6b, 0x5be0cd19137e2179)
  {
    InitialLength();
  }

  const DIGEST: seq<byte> :=
    [0xdd, 0xaf, 0x35, 0xa1, 0x93, 0x61, 0x7a, 0xba] +
    [0xcc, 0x41, 0x73, 0x49, 0xae, 0x20, 0x41, 0x31] +
    [0x12, 0xe6, 0xfa, 0x4e, 0x89, 0xa9, 0x7e, 0xa2] +
    [0x0a, 0x9e, 0xee, 0xe6, 0x4b, 0x55, 0xd3, 0x9a] +
    [0x21, 0x92, 0x99, 0x2a, 0x27, 0x4f, 0xc1, 0xa8] +
    [0x36, 0xba, 0x3c, 0x23, 0xa3, 0xfe, 0xeb, 0xbd] +
    [0x45, 0x4d, 0x44, 0x23, 0x64, 0x3c, 0xe8, 0x0e] +
    [0x2a, 0x9a, 0xc9, 0x4f, 0xa5, 0x4c, 0xa4, 0x9f]

  // The digest of the example.
  lemma DigestOfAbc()
    ensures Sha512(ABC) == DIGEST
  {
    hide *;
    BlockIsPadded();
    ChainedWords();
    DigestBytes();
  }

  lemma BlockIsPadded()
    ensures Padded(ABC, 8 * |ABC|) == Block() && Sha512(ABC) == WordsToBytes(HashBlocks(Block()))
  {
    assert (111 - |ABC|) % 128 == 108;
  }

  ghost function Chain(): seq<word> {
    [
      0xddaf35a193617aba, 0xcc417349ae204131, 0x12e6fa4e89a97ea2, 0x0a9eeee64b55d39a,
      0x2192992a274fc1a8, 0x36ba3c23a3feebbd, 0x454d4423643ce80e, 0x2a9ac94fa54ca49f
    ]
  }

  lemma ChainedWords()
    ensures HashBlocks(Block()) == Chain()
  {
    hide Block, K, INITIAL, Plus, Rounds, Schedule, Compress, HashBlocks, Chain, StateVars;
    OneBlock();
    Rounds80();
    CompressTo(Block());
    Sums();
  }

  lemma {:induction false} CompressTo(block: seq<byte>)
    requires |block| == 128 && |INITIAL| == 8
    ensures var v := Rounds(StateVars(INITIAL), Schedule(block, 80), 80);
            Compress(INITIAL, block) ==
              [Plus(INITIAL[0], v.a), Plus(INITIAL[1], v.b), Plus(INITIAL[2], v.c), Plus(INITIAL[3], v.d),
               Plus(INITIAL[4], v.e), Plus(INITIAL[5], v.f), Plus(INITIAL[6], v.g), Plus(INITIAL[7], v.h)]
  {
    hide Rounds, Schedule, INITIAL, StateVars, Plus;
  }

  lemma Sums()
    ensures |INITIAL| == 8
    ensures Chain() ==
              [Plus(INITIAL[0], 0x73a54f399fa4b1b2), Plus(INITIAL[1], 0x10d9c4c4295599f6),
               Plus(INITIAL[2], 0xd67806db8b148677), Plus(INITIAL[3], 0x654ef9abec389ca9),
               Plus(INITIAL[4], 0xd08446aa79693ed7), Plus(INITIAL[5], 0x9bb4d39778c07f9e),
               Plus(INITIAL[6], 0x25c96a7768fb2aa3), Plus(INITIAL[7], 0xceb9fc3691ce8326)]
  {
    InitialLength();
  }

  lemma OneBlock()
    ensures |INITIAL| == 8 && HashBlocks(Block()) == Compress(INITIAL, Block())
  {
    hide Compress, Block;
    InitialLength();
    assert Block()[..0] == [] && Block()[0..] == Block();
  }

  lemma DigestBytes()
    ensures WordsToBytes(Chain()) == DIGEST
  {
    hide WordsToBytes, ToBigEndian, DIGEST, Chain;
    var s, r := FirstFour();
    s, r := AppendWord(s, r, 0x2192992a274fc1a8, 0x21, 0x92, 0x99, 0x2a, 0x27, 0x4f, 0xc1, 0xa8);
    s, r := AppendWord(s, r, 0x36ba3c23a3feebbd, 0x36, 0xba, 0x3c, 0x23, 0xa3, 0xfe, 0xeb, 0xbd);
    s, r := AppendWord(s, r, 0x454d4423643ce80e, 0x45, 0x4d, 0x44, 0x23, 0x64, 0x3c, 0xe8, 0x0e);
    s, r := AppendWord(s, r, 0x2a9ac94fa54ca49f, 0x2a, 0x9a, 0xc9, 0x4f, 0xa5, 0x4c, 0xa4, 0x9f);
    DigestRows(s, r);
  }

  lemma FirstFour() returns (s: seq<word>, r: seq<byte>)
    ensures WordsToBytes(s) == r
    ensures s ==
            [] + [0xddaf35a193617aba] + [0xcc417349ae204131] + [0x12e6fa4e89a97ea2] + [0x0a9eeee64b55d39a]
    ensures r ==
            [] +
            [0xdd, 0xaf, 0x35, 0xa1, 0x93, 0x61, 0x7a, 0xba] +
            [0xcc, 0x41, 0x73, 0x49, 0xae, 0x20, 0x41, 0x31] +
            [0x12, 0xe6, 0xfa, 0x4e, 0x89, 0xa9, 0x7e, 0xa2] +
            [0x0a, 0x9e, 0xee, 0xe6, 0x4b, 0x55, 0xd3, 0x9a]
  {
    hide WordsToBytes, ToBigEndian;
    EmptyBytes();
    s, r := [], [];
    s, r := AppendWord(s, r, 0xddaf35a193617aba, 0xdd, 0xaf, 0x35, 0xa1, 0x93, 0x61, 0x7a, 0xba);
    s, r := AppendWord(s, r, 0xcc417349ae204131, 0xcc, 0x41, 0x73, 0x49, 0xae, 0x20, 0x41, 0x31);
    s, r := AppendWord(s, r, 0x12e6fa4e89a97ea2, 0x12, 0xe6, 0xfa, 0x4e, 0x89, 0xa9, 0x7e, 0xa2);
    s, r := AppendWord(s, r, 0x0a9eeee64b55d39a, 0x0a, 0x9e, 0xee, 0xe6, 0x4b, 0x55, 0xd3, 0x9a);
  }

  lemma DigestRows(s: seq<word>, r: seq<byte>)
    requires s ==
             [] + [0xddaf35a193617aba] + [0xcc417349ae204131] + [0x12e6fa4e89a97ea2] +
             [0x0a9eeee64b55d39a] + [0x2192992a274fc1a8] + [0x36ba3c23a3feebbd] +
             [0x454d4423643ce80e] + [0x2a9ac94fa54ca49f]
    requires r ==
             [] +
             [0xdd, 0xaf, 0x35, 0xa1, 0x93, 0x61, 0x7a, 0xba] +
             [0xcc, 0x41, 0x73, 0x49, 0xae, 0x20, 0x41, 0x31] +
             [0x12, 0xe6, 0xfa, 0x4e, 0x89, 0xa9, 0x7e, 0xa2] +
             [0x0a, 0x9e, 0xee, 0xe6, 0x4b, 0x55, 0xd3, 0x9a] +
             [0x21, 0x92, 0x99, 0x2a, 0x27, 0x4f, 0xc1, 0xa8] +
             [0x36, 0xba, 0x3c, 0x23, 0xa3, 0xfe, 0xeb, 0xbd] +
             [0x45, 0x4d, 0x44, 0x23, 0x64, 0x3c, 0xe8, 0x0e] +
             [0x2a, 0x9a, 0xc9, 0x4f, 0xa5, 0x4c, 0xa4, 0x9f]
    ensures s == Chain() && r == DIGEST
  {
  }

  lemma EmptyBytes()
    ensures WordsToBytes([]) == []
  {
  }

  lemma AppendWord(s: seq<word>, r: seq<byte>, w: word, b0: byte, b1: byte, b2: byte, b3: byte, b4: byte, b5: byte,
                   b6: byte, b7: byte)
    returns (s': seq<word>, r': seq<byte>)
    requires WordsToBytes(s) == r
    requires FromWord(w) == ((((((b0 * 256 + b1) * 256 + b2) * 256 + b3) * 256 + b4) * 256 + b5) * 256 + b6) * 256 + b7
    ensures s' == s + [w] && r' == r + [b0, b1, b2, b3, b4, b5, b6, b7] && WordsToBytes(s') == r'
  {
    hide ToBigEndian, FromWord;
    s' := s + [w];
    assert s'[..|s|] == s;
    EightBytesOf(FromWord(w), b0, b1, b2, b3, b4, b5, b6, b7);
    r' := r + [b0, b1, b2, b3, b4, b5, b6, b7];
  }

  lemma {:induction false} EightBytesOf(n: nat, b0: byte, b1: byte, b2: byte, b3: byte, b4: byte, b5: byte,
                                        b6: byte, b7: byte)
    requires n == ((((((b0 * 256 + b1) * 256 + b2) * 256 + b3) * 256 + b4) * 256 + b5) * 256 + b6) * 256 + b7
    ensures ToBigEndian(n, 8) == [b0, b1, b2, b3, b4, b5, b6, b7]
  {
    hide ToBigEndian;
    var m := ((b0 * 256 + b1) * 256 + b2) * 256 + b3;
    FourBytes(m, b0, b1, b2, b3);
    NextByte(m, 4, b4);
    NextByte(m * 256 + b4, 5, b5);
    NextByte((m * 256 + b4) * 256 + b5, 6, b6);
    NextByte(((m * 256 + b4) * 256 + b5) * 256 + b6, 7, b7);
  }

  lemma {:induction false} FourBytes(n: nat, b0: byte, b1: byte, b2: byte, b3: byte)
    requires n == ((b0 * 256 + b1) * 256 + b2) * 256 + b3
    ensures ToBigEndian(n, 4) == [b0, b1, b2, b3]
  {
    hide ToBigEndian;
    NoBytes();
    NextByte(0, 0, b0);
    NextByte(b0, 1, b1);
    NextByte(b0 * 256 + b1, 2, b2);
    NextByte((b0 * 256 + b1) * 256 + b2, 3, b3);
  }

  lemma NoBytes()
    ensures ToBigEndian(0, 0) == []
  {
  }

  lemma NextByte(n: nat, k: nat, b: byte)
    ensures ToBigEndian(n * 256 + b, k + 1) == ToBigEndian(n, k) + [b]
  {
    DivModUnique(n * 256 + b, 256, n, b);
  }
}
