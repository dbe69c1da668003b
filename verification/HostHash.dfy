// ntfe/host.cpp: the hash of an address, whose low bits choose the bucket.
module HostHash {
  import opened Bytes
  import opened FieldSelect
  import opened Packing
  import opened HostTable

  // Different addresses have different hashes: the multiplier is odd, and x ^ (x >> 16) can be undone.
  lemma HashInjective(a: nat, b: nat)
    requires a < WORD && b < WORD && InetHash(a) == InetHash(b)
    ensures a == b
  {
    hide BitXor;
    var g, h := a * 0x32583499 % WORD, b * 0x32583499 % WORD;
    XorShiftInjective(g, h);
    Undone(a);
    Undone(b);
  }

  // 0xa214dfa9 is the inverse of the multiplier.
  lemma Undone(a: nat)
    requires a < WORD
    ensures a * 0x32583499 % WORD * 0xa214dfa9 % WORD == a
  {
    var q, h := a * 0x32583499 / WORD, a * 0x32583499 % WORD;
    assert h * 0xa214dfa9 == WORD * (a * 0x1fdfec29 - q * 0xa214dfa9) + a;
    DivModUnique(h * 0xa214dfa9, WORD, a * 0x1fdfec29 - q * 0xa214dfa9, a);
  }

  lemma {:induction false} XorShiftInjective(g: nat, h: nat)
    requires g < WORD && h < WORD && BitXor(g, g / 0x1_0000) == BitXor(h, h / 0x1_0000)
    ensures g == h
  {
    hide BitXor, Exp2;
    ExpSmall();
    HighHalfStays(g);
    HighHalfStays(h);
    XorUndo(g, g / 0x1_0000);
    XorUndo(h, h / 0x1_0000);
  }

  lemma {:induction false} HighHalfStays(h: nat)
    requires h < WORD
    ensures BitXor(h, h / 0x1_0000) / 0x1_0000 == h / 0x1_0000
  {
    hide BitXor, Exp2;
    ExpSmall();
    XorShift(h, h / 0x1_0000, 16);
    assert h / 0x1_0000 / 0x1_0000 == 0;
    XorZero(h / 0x1_0000);
  }

  lemma {:induction false} XorShift(a: nat, b: nat, k: nat)
    ensures a / Exp2(k) >= 0 && b / Exp2(k) >= 0
    ensures BitXor(a, b) / Exp2(k) == BitXor(a / Exp2(k), b / Exp2(k))
    decreases k
  {
    DivBounds(a, Exp2(k));
    DivBounds(b, Exp2(k));
    if k > 0 {
      XorShift(a / 2, b / 2, k - 1);
      XorHalves(a, b);
      DivTwice(a, 2, Exp2(k - 1));
      DivTwice(b, 2, Exp2(k - 1));
      DivTwice(BitXor(a, b), 2, Exp2(k - 1));
    }
  }

  // One value: the address 1.
  lemma HashOfOne()
    ensures InetHash(1) == 0x325806c1 && BucketOf(1) == 0x6c1
  {
    hide BitXor;
    XorZero(0xc960);
    XorNext(0x192c1, 0x1, 0xc960);
    XorNext(0x32583, 0x3, 0x192c0);
    XorNext(0x64b06, 0x6, 0x32580);
    XorNext(0xc960d, 0xc, 0x64b00);
    XorNext(0x192c1a, 0x19, 0xc9601);
    XorNext(0x325834, 0x32, 0x192c03);
    XorNext(0x64b069, 0x64, 0x325806);
    XorNext(0xc960d2, 0xc9, 0x64b00d);
    XorNext(0x192c1a4, 0x192, 0xc9601b);
    XorNext(0x3258349, 0x325, 0x192c036);
    XorNext(0x64b0693, 0x64b, 0x325806c);
    XorNext(0xc960d26, 0xc96, 0x64b00d8);
    XorNext(0x192c1a4c, 0x192c, 0xc9601b0);
    XorNext(0x32583499, 0x3258, 0x192c0360);
  }

  lemma {:induction false} XorNext(a: nat, b: nat, r: nat)
    requires BitXor(a / 2, b / 2) == r
    ensures BitXor(a, b) == (if a % 2 != b % 2 then 1 else 0) + 2 * r
  {
  }
}
