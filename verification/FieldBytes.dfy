// ntfe/ed25519/fe.c: unpacking 32 bytes into a field element and packing the canonical representative.
module FieldBytes {
  import opened Bytes
  import opened Packing
  import opened Congruence
  import opened Limbs
  import opened FieldArithmetic

  // ----- fe_frombytes -----

  // The ten loads of fe_frombytes partition the 32 bytes.
  lemma {:induction false} LoadsPartition(s: seq<byte>)
    requires |s| == 32
    ensures Le(s) == Load4(s, 0) + 0x1_0000_0000 * (Load3(s, 4) + 0x100_0000 * (Load3(s, 7) + 0x100_0000 * (
                     Load3(s, 10) + 0x100_0000 * (Load3(s, 13) + 0x100_0000 * (Load4(s, 16) + 0x1_0000_0000 * (
                     Load3(s, 20) + 0x100_0000 * (Load3(s, 23)
                         + 0x100_0000 * (Load3(s, 26) + 0x100_0000 * Load3(s, 29)))))))))
  {
    assert s[0..] == s;
    LoadFirst4(s, 0);
    LoadFirst3(s, 4);
    LoadFirst3(s, 7);
    LoadFirst3(s, 10);
    LoadFirst3(s, 13);
    LoadFirst4(s, 16);
    LoadFirst3(s, 20);
    LoadFirst3(s, 23);
    LoadFirst3(s, 26);
    Load3Value(s, 29);
    assert s[29..] == s[29..32];
  }

  lemma LoadFirst3(s: seq<byte>, i: nat)
    requires i + 3 <= |s|
    ensures Le(s[i..]) == Load3(s, i) + 0x100_0000 * Le(s[i + 3..])
    ensures Load3(s, i) < 0x100_0000
  {
    assert s[i..] == s[i..i + 3] + s[i + 3..];
    LeSplit(s[i..i + 3], s[i + 3..]);
    Load3Value(s, i);
    ExpSmall();
  }

  lemma LoadFirst4(s: seq<byte>, i: nat)
    requires i + 4 <= |s|
    ensures Le(s[i..]) == Load4(s, i) + 0x1_0000_0000 * Le(s[i + 4..])
    ensures Load4(s, i) < 0x1_0000_0000
  {
    assert s[i..] == s[i..i + 4] + s[i + 4..];
    LeSplit(s[i..i + 4], s[i + 4..]);
    Load4Value(s, i);
    ExpSmall();
  }

  // The loads as limbs, before the carries, with the top bit of the last byte masked off.
  ghost function Loaded(s: seq<byte>): Vec
    requires |s| == 32
  {
    Vec(Load4(s, 0), Load3(s, 4) * 0x40, Load3(s, 7) * 0x20, Load3(s, 10) * 8, Load3(s, 13) * 4,
        Load4(s, 16), Load3(s, 20) * 0x80, Load3(s, 23) * 0x20, Load3(s, 26) * 0x10, Load3(s, 29) % 0x80_0000 * 4)
  }

  lemma {:induction false} LoadedValue(s: seq<byte>)
    requires |s| == 32
    ensures Eval(Loaded(s)) == Le(s) % EXP255
    ensures var v := Loaded(s);
            && 0 <= v.h0 < 0x1_0000_0000 && 0 <= v.h5 < 0x1_0000_0000
            && 0 <= v.h1 < 0x4000_0000 && 0 <= v.h2 < 0x2000_0000 && 0 <= v.h3 < 0x800_0000 && 0 <= v.h4 < 0x400_0000
            && 0 <= v.h6 < 0x8000_0000 && 0 <= v.h7 < 0x2000_0000 && 0 <= v.h8 < 0x1000_0000 && 0 <= v.h9 < 0x200_0000
  {
    LoadsPartition(s);
    Load4Value(s, 0); Load3Value(s, 4); Load3Value(s, 7); Load3Value(s, 10); Load3Value(s, 13);
    Load4Value(s, 16); Load3Value(s, 20); Load3Value(s, 23); Load3Value(s, 26); Load3Value(s, 29);
    hide Load3, Load4, Le;
    DivModUnique(Le(s), EXP255, Load3(s, 29) / 0x80_0000, Eval(Loaded(s)));
  }

  lemma {:induction false} LoadedLimbs(s: seq<byte>, h0: nat, h1: nat, h2: nat, h3: nat, h4: nat, h5: nat, h6: nat,
      h7: nat, h8: nat, h9: nat)
    requires |s| == 32
    requires h0 == Load4(s, 0) && h1 == Load3(s, 4) * 0x40 && h2 == Load3(s, 7) * 0x20 && h3 == Load3(s, 10) * 8
    requires h4 == Load3(s, 13) * 4 && h5 == Load4(s, 16) && h6 == Load3(s, 20) * 0x80 && h7 == Load3(s, 23) * 0x20
    requires h8 == Load3(s, 26) * 0x10 && h9 == BitAnd(8388607, Load3(s, 29)) * 4
    ensures h0 <= 0xffff_ffff && h1 <= 0xffff_ffff && h2 <= 0xffff_ffff && h3 <= 0xffff_ffff && h4 <= 0xffff_ffff
    ensures h5 <= 0xffff_ffff && h6 <= 0xffff_ffff && h7 <= 0xffff_ffff && h8 <= 0xffff_ffff && h9 <= 0xffff_ffff
    ensures Eval(Vec(h0, h1, h2, h3, h4, h5, h6, h7, h8, h9)) == Le(s) % EXP255
  {
    hide Load3, Load4, Le, BitAnd, Eval;
    LoadedValue(s);
    Mask23(Load3(s, 29));
    assert Vec(h0, h1, h2, h3, h4, h5, h6, h7, h8, h9) == Loaded(s);
  }

  lemma {:induction false} Mask23(x: nat)
    ensures BitAnd(8388607, x) == x % 0x80_0000
  {
    hide BitAnd;
    ExpSmall();
    BitAndMask(x, 23);
  }

  // Ignores the top bit of s, and accepts values from p to 2^255 - 1 as well.
  method FromBytes(s: seq<byte>) returns (h: Fe)
    requires |s| == 32
    ensures Within(h, TIGHT)
    ensures Cong(Value(h), Le(s) % EXP255)
  {
    hide *;
    var h0, h1, h2, h3 := Load4(s, 0), Load3(s, 4) * 0x40, Load3(s, 7) * 0x20, Load3(s, 10) * 8;
    var h4, h5, h6, h7 := Load3(s, 13) * 4, Load4(s, 16), Load3(s, 20) * 0x80, Load3(s, 23) * 0x20;
    var h8, h9 := Load3(s, 26) * 0x10, BitAnd(8388607, Load3(s, 29)) * 4;
    LoadedLimbs(s, h0, h1, h2, h3, h4, h5, h6, h7, h8, h9);
    h := CarryOddEven(h0 as int64, h1 as int64, h2 as int64, h3 as int64, h4 as int64,
                      h5 as int64, h6 as int64, h7 as int64, h8 as int64, h9 as int64);
  }

  // ----- fe_tobytes -----

  // The quotient chain: each step rounds down, so the last one is the floor of the whole sum.
  ghost function Quotient(v: Vec): int {
    var q := (19 * v.h9 + 0x100_0000) / 0x200_0000;
    var q := (v.h0 + q) / 0x400_0000;
    var q := (v.h1 + q) / 0x200_0000;
    var q := (v.h2 + q) / 0x400_0000;
    var q := (v.h3 + q) / 0x200_0000;
    var q := (v.h4 + q) / 0x400_0000;
    var q := (v.h5 + q) / 0x200_0000;
    var q := (v.h6 + q) / 0x400_0000;
    var q := (v.h7 + q) / 0x200_0000;
    var q := (v.h8 + q) / 0x400_0000;
    (v.h9 + q) / 0x200_0000
  }

  lemma QuotientFloor(v: Vec)
    ensures Quotient(v) == (Eval(v) + (19 * v.h9 + 0x100_0000) / 0x200_0000) / EXP255
  {
    var x := (19 * v.h9 + 0x100_0000) / 0x200_0000;
    var x0 := v.h0 + x;
    FloorStep(v.h1, x0, 0x400_0000, 0x200_0000);
    var x1 := v.h1 * 0x400_0000 + x0;
    FloorStep(v.h2, x1, 0x8_0000_0000_0000, 0x400_0000);
    var x2 := v.h2 * 0x8_0000_0000_0000 + x1;
    FloorStep(v.h3, x2, 0x2000_0000_0000_0000_0000, 0x200_0000);
    var x3 := v.h3 * 0x2000_0000_0000_0000_0000 + x2;
    FloorStep(v.h4, x3, 0x40_0000_0000_0000_0000_0000_0000, 0x400_0000);
    var x4 := v.h4 * 0x40_0000_0000_0000_0000_0000_0000 + x3;
    FloorStep(v.h5, x4, 0x1_0000_0000_0000_0000_0000_0000_0000_0000, 0x200_0000);
    var x5 := v.h5 * 0x1_0000_0000_0000_0000_0000_0000_0000_0000 + x4;
    FloorStep(v.h6, x5, 0x200_0000_0000_0000_0000_0000_0000_0000_0000_0000, 0x400_0000);
    var x6 := v.h6 * 0x200_0000_0000_0000_0000_0000_0000_0000_0000_0000 + x5;
    FloorStep(v.h7, x6, 0x8_0000_0000_0000_0000_0000_0000_0000_0000_0000_0000_0000, 0x200_0000);
    var x7 := v.h7 * 0x8_0000_0000_0000_0000_0000_0000_0000_0000_0000_0000_0000 + x6;
    FloorStep(v.h8, x7, 0x1000_0000_0000_0000_0000_0000_0000_0000_0000_0000_0000_0000_0000, 0x400_0000);
    var x8 := v.h8 * 0x1000_0000_0000_0000_0000_0000_0000_0000_0000_0000_0000_0000_0000 + x7;
    FloorStep(v.h9, x8, 0x40_0000_0000_0000_0000_0000_0000_0000_0000_0000_0000_0000_0000_0000_0000, 0x200_0000);
    var x9 := v.h9 * 0x40_0000_0000_0000_0000_0000_0000_0000_0000_0000_0000_0000_0000_0000_0000 + x8;
    hide Quotient;
    assert x9 == Eval(v) + x;
  }

  // The bounded limbs around limb 9 put the chain's starting error in the right place: it rounds value / p down.
  lemma QuotientExact(h: Fe)
    requires Within(h, MEDIUM)
    ensures Quotient(Ints(h)) == Value(h) / P
    ensures -2 <= Value(h) / P <= 1
  {
    var v := Ints(h);
    var n := Value(h);
    var t := (19 * v.h9 + 0x100_0000) / 0x200_0000;
    hide Quotient, Eval, Within;
    NearTopLimb(h);
    ValueMeaning(h);
    QuotientFloor(v);
    TopLimbQuotient(n, v.h9);
    DivModUnique(n + t, EXP255, n / P, n + t - EXP255 * (n / P));
  }

  // Both ends are reached: the limb h9 alone takes the quotient to -2 and to 1.
  lemma QuotientEnds(h: Fe)
    requires h == Fe(0, 0, 0, 0, 0, 0, 0, 0, 0, -36909875) || h == Fe(0, 0, 0, 0, 0, 0, 0, 0, 0, 36909875)
    ensures Within(h, MEDIUM)
    ensures Value(h) / P == if h.h9 < 0 then -2 else 1
  {
    ValueMeaning(h);
    if h.h9 < 0 {
      DivModUnique(Value(h), P, -2, Value(h) + 2 * P);
    } else {
      DivModUnique(Value(h), P, 1, Value(h) - P);
    }
  }

  // Everything below limb 9 is less than 2^231.
  lemma NearTopLimb(h: Fe)
    requires Within(h, MEDIUM)
    ensures -EXP231 < Value(h) - EXP230 * (h.h9 as int) < EXP231
  {
    ValueMeaning(h);
  }

  const EXP230: int := 0x40_0000_0000_0000_0000_0000_0000_0000_0000_0000_0000_0000_0000_0000_0000
  const EXP231: int := 0x80_0000_0000_0000_0000_0000_0000_0000_0000_0000_0000_0000_0000_0000_0000

  lemma TopLimbQuotient(n: int, top: int)
    requires -EXP231 < n - EXP230 * top < EXP231 && -36909875 <= top <= 36909875
    ensures -2 <= n / P <= 1
    ensures 0 <= n + (19 * top + 0x100_0000) / 0x200_0000 - EXP255 * (n / P) < EXP255
  {
    var q := n / P;
    var r := n % P;
    assert n == P * q + r && 0 <= r < P;
    assert -2 <= q <= 1;
    var t := (19 * top + 0x100_0000) / 0x200_0000;
    assert 0x200_0000 * t <= 19 * top + 0x100_0000 < 0x200_0000 * t + 0x200_0000;
    assert n + t - EXP255 * q == r - 19 * q + t;
  }

  // The ten digits left by the last carries.
  ghost predicate Digits(v: Vec) {
    && 0 <= v.h0 < 0x400_0000 && 0 <= v.h1 < 0x200_0000 && 0 <= v.h2 < 0x400_0000 && 0 <= v.h3 < 0x200_0000
    && 0 <= v.h4 < 0x400_0000 && 0 <= v.h5 < 0x200_0000 && 0 <= v.h6 < 0x400_0000 && 0 <= v.h7 < 0x200_0000
    && 0 <= v.h8 < 0x400_0000 && 0 <= v.h9 < 0x200_0000
  }

  // Lay the digits out as 32 bytes. Digits 0 to 4 fill the first sixteen exactly.
  method Pack(h0: nat, h1: nat, h2: nat, h3: nat, h4: nat, h5: nat, h6: nat, h7: nat, h8: nat, h9: nat)
    returns (s: seq<byte>)
    requires Digits(Vec(h0, h1, h2, h3, h4, h5, h6, h7, h8, h9))
    ensures |s| == 32 && Le(s) == Eval(Vec(h0, h1, h2, h3, h4, h5, h6, h7, h8, h9))
  {
    hide Le;
    var low := PackLow(h0, h1, h2, h3, h4);
    var high := PackHigh(h5, h6, h7, h8, h9);
    s := low + high;
    LeSplit(low, high);
    Exp128();
  }

  method PackLow(h0: nat, h1: nat, h2: nat, h3: nat, h4: nat) returns (s: seq<byte>)
    requires h0 < 0x400_0000 && h1 < 0x200_0000 && h2 < 0x400_0000 && h3 < 0x200_0000 && h4 < 0x400_0000
    ensures |s| == 16
    ensures Le(s) == h0 + 0x400_0000 * h1 + 0x8_0000_0000_0000 * h2 + 0x2000_0000_0000_0000_0000 * h3
                + 0x40_0000_0000_0000_0000_0000_0000 * h4
  {
    hide *;
    ExpSmall();
    var a0, b0, c0, d0 := Pieces(h0, 256);
    var a1, b1, c1, d1 := Pieces(h1, 64);
    var a2, b2, c2, d2 := Pieces(h2, 32);
    var a3, b3, c3, d3 := Pieces(h3, 8);
    var a4, b4, c4, d4 := Pieces(h4, 4);
    var e1 := SharedByte(d0, h1, 2, 4, 64);
    var e2 := SharedByte(d1, h2, 3, 8, 32);
    var e3 := SharedByte(d2, h3, 5, 32, 8);
    var e4 := SharedByte(d3, h4, 6, 64, 4);
    s := [a0, b0, c0, e1, b1, c1, e2, b2, c2, e3, b3, c3, e4, b4, c4, d4];
    LeSixteen(s);
  }

  method PackHigh(h5: nat, h6: nat, h7: nat, h8: nat, h9: nat) returns (s: seq<byte>)
    requires h5 < 0x200_0000 && h6 < 0x400_0000 && h7 < 0x200_0000 && h8 < 0x400_0000 && h9 < 0x200_0000
    ensures |s| == 16
    ensures Le(s) == h5 + 0x200_0000 * h6 + 0x8_0000_0000_0000 * h7 + 0x1000_0000_0000_0000_0000 * h8
                + 0x40_0000_0000_0000_0000_0000_0000 * h9
  {
    hide *;
    ExpSmall();
    var a5, b5, c5, d5 := Pieces(h5, 256);
    var a6, b6, c6, d6 := Pieces(h6, 128);
    var a7, b7, c7, d7 := Pieces(h7, 32);
    var a8, b8, c8, d8 := Pieces(h8, 16);
    var a9, b9, c9, d9 := Pieces(h9, 4);
    var e6 := SharedByte(d5, h6, 1, 2, 128);
    var e7 := SharedByte(d6, h7, 3, 8, 32);
    var e8 := SharedByte(d7, h8, 4, 16, 16);
    var e9 := SharedByte(d8, h9, 6, 64, 4);
    s := [a5, b5, c5, e6, b6, c6, e7, b7, c7, e8, b8, c8, e9, b9, c9, d9];
    LeSixteen(s);
  }

  // One step of a carry that rounds down, in int32.
  method Floor26(h: int32) returns (carry: int32, rest: int32)
    ensures h as int == rest as int + 0x400_0000 * (carry as int) && 0 <= rest < 0x400_0000
  {
    carry := h / 0x400_0000;
    rest := h - carry * 0x400_0000;
  }

  method Floor25(h: int32) returns (carry: int32, rest: int32)
    ensures h as int == rest as int + 0x200_0000 * (carry as int) && 0 <= rest < 0x200_0000
  {
    carry := h / 0x200_0000;
    rest := h - carry * 0x200_0000;
  }

  // The quotient chain of fe_tobytes in int32: no step overflows.
  method QuotientChain(h: Fe) returns (q: int32)
    requires Within(h, MEDIUM)
    ensures q as int == Quotient(Ints(h))
  {
    q := (19 * h.h9 + 0x100_0000) / 0x200_0000;
    q := (h.h0 + q) / 0x400_0000;
    q := (h.h1 + q) / 0x200_0000;
    q := (h.h2 + q) / 0x400_0000;
    q := (h.h3 + q) / 0x200_0000;
    q := (h.h4 + q) / 0x400_0000;
    q := (h.h5 + q) / 0x200_0000;
    q := (h.h6 + q) / 0x400_0000;
    q := (h.h7 + q) / 0x200_0000;
    q := (h.h8 + q) / 0x400_0000;
    q := (h.h9 + q) / 0x200_0000;
  }

  // Carries that round down, from limb 0 up. What leaves limb 9 is top.
  method CarryDown(f: Fe)
    returns (h0: int32, h1: int32, h2: int32, h3: int32, h4: int32, h5: int32, h6: int32, h7: int32, h8: int32,
          h9: int32, ghost top: int)
    requires Within(f, MEDIUM.Plus(Bound(38, 0)))
    ensures var v := Vec(h0 as int, h1 as int, h2 as int, h3 as int, h4 as int, h5 as int, h6 as int, h7 as int,
            h8 as int, h9 as int);
            Digits(v) && Eval(v) + EXP255 * top == Value(f)
  {
    h0, h1, h2, h3, h4, h5, h6, h7, h8, h9 := f.h0, f.h1, f.h2, f.h3, f.h4, f.h5, f.h6, f.h7, f.h8, f.h9;
    var carry;
    carry, h0 := Floor26(h0);
    h1 := h1 + carry;
    carry, h1 := Floor25(h1);
    h2 := h2 + carry;
    carry, h2 := Floor26(h2);
    h3 := h3 + carry;
    carry, h3 := Floor25(h3);
    h4 := h4 + carry;
    carry, h4 := Floor26(h4);
    h5 := h5 + carry;
    carry, h5 := Floor25(h5);
    h6 := h6 + carry;
    carry, h6 := Floor26(h6);
    h7 := h7 + carry;
    carry, h7 := Floor25(h7);
    h8 := h8 + carry;
    carry, h8 := Floor26(h8);
    h9 := h9 + carry;
    carry, h9 := Floor25(h9);
    top := carry as int;
    ValueMeaning(f);
  }

  // The digits of value - p q, which is between 0 and p - 1: adding 19 q and carrying drops 2^255 q at the top.
  method CanonicalDigits(h: Fe)
    returns (h0: int32, h1: int32, h2: int32, h3: int32, h4: int32, h5: int32, h6: int32, h7: int32, h8: int32,
          h9: int32)
    requires Within(h, MEDIUM)
    ensures var v := Vec(h0 as int, h1 as int, h2 as int, h3 as int, h4 as int, h5 as int, h6 as int, h7 as int,
            h8 as int, h9 as int);
            Digits(v) && Eval(v) == Value(h) % P
  {
    hide Quotient, Digits;
    QuotientExact(h);
    var q := QuotientChain(h);
    var f := h.(h0 := h.h0 + 19 * q);
    ValueMeaning(f);
    ValueMeaning(h);
    assert Value(f) == Value(h) + 19 * (q as int);
    assert Within(f, MEDIUM.Plus(Bound(38, 0)));
    hide Eval, Within;
    ghost var top;
    h0, h1, h2, h3, h4, h5, h6, h7, h8, h9, top := CarryDown(f);
    ghost var v := Vec(h0 as int, h1 as int, h2 as int, h3 as int, h4 as int, h5 as int, h6 as int, h7 as int,
        h8 as int, h9 as int);
    DigitsTotal(v);
    DropTop(Value(h), q as int, Eval(v), top);
  }

  lemma DigitsTotal(v: Vec)
    requires Digits(v)
    ensures 0 <= Eval(v) < EXP255
  {
  }

  lemma DropTop(n: int, q: int, x: int, top: int)
    requires q == n / P && 0 <= x < EXP255 && n + 19 * q == x + EXP255 * top
    ensures x == n % P
  {
    assert n == P * q + n % P;
    assert n % P - x == EXP255 * (top - q);
  }

  // Writes 32 bytes of s from position at on: the canonical representative of the value.
  method ToBytes(s: array<byte>, at: nat, h: Fe)
    requires at + 32 <= s.Length
    requires Within(h, MEDIUM)
    modifies s
    ensures Le(s[at..at + 32]) == Value(h) % P
    ensures s[..at] == old(s[..at]) && s[at + 32..] == old(s[at + 32..])
  {
    hide Le, Eval, Within;
    var h0, h1, h2, h3, h4, h5, h6, h7, h8, h9 := CanonicalDigits(h);
    var packed := Pack(h0 as int, h1 as int, h2 as int, h3 as int, h4 as int, h5 as int, h6 as int, h7 as int,
        h8 as int, h9 as int);
    forall i | 0 <= i < 32 {
      s[at + i] := packed[i];
    }
    assert s[at..at + 32] == packed;
  }

  // Packing what was unpacked gives the same bytes back, for every encoding below p once the top bit is cleared.
  method FromBytesToBytes(s: array<byte>)
    requires s.Length == 32 && Le(s[..]) % EXP255 < P
    modifies s
    ensures Le(s[..]) == old(Le(s[..])) % EXP255
    ensures old(s[31]) < 128 ==> s[..] == old(s[..])
  {
    hide Le, Eval, Within, Cong;
    ghost var bytes := s[..];
    var h := FromBytes(s[..]);
    CongSameMod(Value(h), Le(bytes) % EXP255);
    WithinWeaken(h, TIGHT, MEDIUM);
    ToBytes(s, 0, h);
    assert s[..] == s[0..32];
    if bytes[31] < 128 {
      TopBitClear(bytes);
      LeInjective(s[..], bytes);
    }
  }

  lemma {:induction false} TopBitClear(s: seq<byte>)
    requires |s| == 32
    ensures s[31] < 128 <==> Le(s) < EXP255
  {
    hide Le, Exp2;
    var t := s[31..];
    assert s == s[..31] + t && t == [s[31]];
    LeSplit(s[..31], t);
    LeOne(s[31]);
    LeBound(s[..31]);
    Exp248();
  }
}
