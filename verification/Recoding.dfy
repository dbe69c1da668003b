// ntfe/ed25519/ge.c: the two signed-digit recodings of a scalar, the sliding window of slide and the radix-16 one
// at the start of ge_scalarmult_base. Both work in place on an array of signed char.
module Recoding {
  import opened Bytes
  import opened Congruence
  import opened Packing

  newtype int8 = x: int | -128 <= x < 128

  // ----- the number a string of signed digits stands for, least significant digit first -----

  ghost function Digits(s: seq<int8>, b: nat): int {
    if s == [] then 0 else s[0] as int + b * Digits(s[1..], b)
  }

  lemma {:induction false} DigitsJoin(s: seq<int8>, t: seq<int8>, b: nat)
    ensures Digits(s + t, b) == Digits(s, b) + Pow(b, |s|) * Digits(t, b)
    decreases s
  {
    if s == [] {
      assert s + t == t;
    } else {
      assert (s + t)[1..] == s[1..] + t;
      DigitsJoin(s[1..], t, b);
      Distribute(b, Digits(s[1..], b), Pow(b, |s| - 1), Digits(t, b));
    }
  }

  lemma Distribute(b: int, x: int, p: int, y: int)
    ensures b * (x + p * y) == b * x + (b * p) * y
  {
  }

  lemma {:induction false} DigitsOne(v: int8, b: nat)
    ensures Digits([v], b) == v as int
  {
  }

  lemma {:induction false} DigitsZero(s: seq<int8>, b: nat)
    requires forall j :: 0 <= j < |s| ==> s[j] == 0
    ensures Digits(s, b) == 0
    decreases s
  {
    if s != [] {
      DigitsZero(s[1..], b);
    }
  }

  // Digit k has weight b^k.
  lemma DigitsUpdate(s: seq<int8>, k: nat, v: int8, b: nat)
    requires k < |s|
    ensures Digits(s[k := v], b) == Digits(s, b) + Pow(b, k) * (v as int - s[k] as int)
  {
    hide Digits, Pow;
    var low, high := s[..k], s[k + 1..];
    assert s == low + ([s[k]] + high);
    assert s[k := v] == low + ([v] + high);
    DigitsJoin(low, [s[k]] + high, b);
    DigitsJoin(low, [v] + high, b);
    DigitsJoin([s[k]], high, b);
    DigitsJoin([v], high, b);
    DigitsOne(v, b);
    DigitsOne(s[k], b);
    assert |[v]| == 1 && |[s[k]]| == 1;
    Difference(Pow(b, k), s[k] as int, v as int, Pow(b, 1) * Digits(high, b));
  }

  lemma Difference(p: int, u: int, v: int, h: int)
    ensures p * (v + h) == p * (u + h) + p * (v - u)
  {
  }

  // Everything from k on zero: only the first k digits count.
  lemma {:induction false} DigitsLow(s: seq<int8>, k: nat, b: nat)
    requires k <= |s| && forall j :: k <= j < |s| ==> s[j] == 0
    ensures Digits(s, b) == Digits(s[..k], b)
  {
    hide Digits, Pow;
    assert s == s[..k] + s[k..];
    DigitsJoin(s[..k], s[k..], b);
    DigitsZero(s[k..], b);
  }

  lemma {:induction false} DigitsSnoc(s: seq<int8>, k: nat, b: nat)
    requires k < |s|
    ensures Digits(s[..k + 1], b) == Digits(s[..k], b) + Pow(b, k) * (s[k] as int)
  {
    hide Digits, Pow;
    assert s[..k + 1] == s[..k] + [s[k]];
    DigitsJoin(s[..k], [s[k]], b);
    DigitsOne(s[k], b);
  }

  // ----- powers of two -----

  lemma {:induction false} PowTwo(k: nat)
    ensures Pow(2, k) == Exp2(k) >= 1
  {
    if k > 0 {
      PowTwo(k - 1);
    }
  }

  lemma PowTwoSteps(i: nat)
    ensures Pow(2, i + 1) == 2 * Pow(2, i) && Pow(2, i + 2) == 4 * Pow(2, i)
    ensures Pow(2, i + 3) == 8 * Pow(2, i) && Pow(2, i + 4) == 16 * Pow(2, i)
    ensures Pow(2, i) >= 1
  {
    PowTwo(i);
    var p1, p2 := Pow(2, i + 1), Pow(2, i + 2);
    assert p1 == 2 * Pow(2, i);
    assert p2 == 2 * p1;
    assert Pow(2, i + 3) == 2 * p2;
  }

  lemma {:induction false} PowMonotone(i: nat, j: nat)
    requires i <= j
    ensures 1 <= Pow(2, i) <= Pow(2, j)
    decreases j
  {
    PowTwo(i);
    if i < j {
      PowMonotone(i, j - 1);
    }
  }

  lemma PowTop()
    ensures Pow(2, 255) == EXP255 && Pow(2, 256) == 2 * EXP255
  {
    PowTwo(255);
    PowTwo(256);
    ExpSmall();
    Exp248();
    ExpAdd(248, 7);
    ExpAdd(255, 1);
  }

  // ----- slide -----

  predicate IsBit(d: int8) {
    d == 0 || d == 1
  }

  predicate IsWindow(d: int8) {
    d == 0 || (-15 <= d <= 15 && d % 2 == 1)
  }

  // r[i] = 1 & (a[i >> 3] >> (i & 7))
  method ExpandBits(r: array<int8>, a: seq<byte>)
    requires r.Length == 256 && |a| == 32
    modifies r
    ensures forall j :: 0 <= j < 256 ==> IsBit(r[j])
    ensures Digits(r[..], 2) == Le(a)
  {
    hide Le, Exp2, BitAnd, Digits;
    var i := 0;
    while i < 256
      invariant 0 <= i <= 256
      invariant forall j :: 0 <= j < i ==> IsBit(r[j]) && r[j] as int == Le(a) / Exp2(j) % 2
    {
      BitOf(a, i);
      r[i] := BitAnd(1, a[i / 8] / Exp2(i % 8)) as int8;
      i := i + 1;
    }
    LeBound(a);
    BinaryDigits(r[..], Le(a));
  }

  lemma {:induction false} BitOf(a: seq<byte>, i: nat)
    requires i < 8 * |a|
    ensures a[i / 8] / Exp2(i % 8) >= 0
    ensures BitAnd(1, a[i / 8] / Exp2(i % 8)) == Le(a) / Exp2(i) % 2 < 2
  {
    hide BitAnd, Le, Exp2;
    var k, r := i / 8, i % 8;
    assert i == 8 * k + r;
    ExpSmall();
    DivBounds(a[k], Exp2(r));
    BitAndMask(a[k] / Exp2(r), 1);
    Window(a, k, 1, r, 1);
    assert a[k..k + 1] == [a[k]];
    LeOne(a[k]);
  }

  lemma {:induction false} BinaryDigits(s: seq<int8>, n: nat)
    requires n < Exp2(|s|)
    requires forall j :: 0 <= j < |s| ==> s[j] as int == n / Exp2(j) % 2
    ensures Digits(s, 2) == n
    decreases s
  {
    if s != [] {
      var t := s[1..];
      forall j | 0 <= j < |t| ensures t[j] as int == n / 2 / Exp2(j) % 2 {
        DivTwice(n, 2, Exp2(j));
        assert Exp2(j + 1) == 2 * Exp2(j);
        assert t[j] == s[j + 1];
      }
      BinaryDigits(t, n / 2);
      assert Exp2(0) == 1;
      assert s[0] as int == n % 2;
    }
  }

  // The inner ripple: add 2^at to the bits from position at on. It falls off the end only when they are all ones.
  method Ripple(r: array<int8>, at: nat) returns (ghost lost: bool)
    requires r.Length == 256 && at < 256
    requires forall j :: at <= j < 256 ==> IsBit(r[j])
    requires r[at] == 1
    modifies r
    ensures r[..at] == old(r[..at]) && r[at] == 0
    ensures forall j :: at <= j < 256 ==> IsBit(r[j])
    ensures Digits(r[..], 2) == Digits(old(r[..]), 2) + Pow(2, at) - (if lost then Pow(2, 256) else 0)
    ensures lost ==> forall j :: at <= j < 256 ==> r[j] == 0
  {
    hide Digits, Pow;
    lost := true;
    var k := at;
    while k < 256
      invariant at <= k <= 256 && lost
      invariant r[..at] == old(r[..at])
      invariant forall j :: at <= j < k ==> r[j] == 0
      invariant forall j :: k <= j < 256 ==> IsBit(r[j])
      invariant k == at ==> r[at] == 1
      invariant Digits(r[..], 2) == Digits(old(r[..]), 2) + Pow(2, at) - Pow(2, k)
    {
      ghost var was := r[..];
      DigitsUpdate(was, k, 1 - was[k], 2);
      PowTwoSteps(k);
      if r[k] == 0 {
        r[k] := 1;
        assert r[..] == was[k := 1];
        lost := false;
        break;
      }
      r[k] := 0;
      assert r[..] == was[k := 0];
      k := k + 1;
    }
  }

  // Taking up to six further bits into digit i, which is 1 on entry.
  method Absorb(r: array<int8>, i: nat) returns (ghost lost: bool)
    requires r.Length == 256 && i < 256
    requires forall j :: i <= j < 256 ==> IsBit(r[j])
    requires r[i] == 1
    requires -Pow(2, i) < Digits(r[..i], 2)
    modifies r
    ensures r[..i] == old(r[..i])
    ensures r[i] != 0 && IsWindow(r[i])
    ensures forall j :: i < j < 256 ==> IsBit(r[j])
    ensures forall j :: i < j < i + 5 && j < 256 ==> r[j] == 0
    ensures Digits(r[..], 2) == Digits(old(r[..]), 2) - (if lost then Pow(2, 256) else 0)
    ensures lost ==> Digits(old(r[..]), 2) > EXP255
    ensures lost ==> forall j :: i < j < 256 ==> r[j] == 0
  {
    ExpSmall();
    hide Digits, Pow, Exp2;
    ghost var start := r[..];
    lost := false;
    var b := 1;
    while b <= 6 && i + b < 256
      invariant 1 <= b <= 7 && i + b <= 256
      invariant r[..i] == start[..i]
      invariant r[i] % 2 == 1
      invariant b == 1 ==> r[i] == 1
      invariant b == 2 ==> 1 <= r[i] <= 3
      invariant b == 3 ==> 1 <= r[i] <= 7
      invariant b == 4 ==> 1 <= r[i] <= 15
      invariant b <= 4 ==> !lost
      invariant -15 <= r[i] <= 15
      invariant forall j :: i < j < 256 ==> IsBit(r[j])
      invariant forall j :: i < j < i + b && j < i + 5 && j < 256 ==> r[j] == 0
      invariant Digits(r[..], 2) == Digits(start, 2) - (if lost then Pow(2, 256) else 0)
      invariant lost ==> Digits(start, 2) > EXP255
      invariant lost ==> forall j :: i < j < 256 ==> r[j] == 0
    {
      if r[i + b] != 0 {
        var shifted := r[i + b] as int * Exp2(b);
        if r[i] as int + shifted <= 15 {
          Take(r, i, b);
        } else if r[i] as int - shifted >= -15 {
          lost := Give(r, i, start);
        } else {
          break;
        }
      }
      b := b + 1;
    }
  }

  // r[i] += r[i + b] << b; r[i + b] = 0
  method Take(r: array<int8>, i: nat, b: nat)
    requires r.Length == 256 && i + b < 256 && 1 <= b <= 3
    requires r[i + b] == 1 && -15 <= r[i] as int + Exp2(b) <= 15
    modifies r
    ensures Digits(r[..], 2) == Digits(old(r[..]), 2)
    ensures r[..] == old(r[..])[i := (old(r[i]) as int + Exp2(b)) as int8][i + b := 0]
  {
    hide *;
    ghost var was := r[..];
    var v := (r[i] as int + r[i + b] as int * Exp2(b)) as int8;
    TakeValue(was, i, b, v);
    r[i] := v;
    r[i + b] := 0;
    assert r[..] == was[i := v][i + b := 0];
  }

  lemma TakeValue(s: seq<int8>, i: nat, b: nat, v: int8)
    requires b >= 1 && i + b < |s| && s[i + b] == 1 && v as int == s[i] as int + Exp2(b)
    ensures Digits(s[i := v][i + b := 0], 2) == Digits(s, 2)
  {
    PowTwo(i);
    PowTwo(i + b);
    ExpAdd(i, b);
    hide *;
    DigitsUpdate(s, i, v, 2);
    DigitsUpdate(s[i := v], i + b, 0, 2);
  }

  // r[i] -= r[i + 4] << 4 and the ripple that pays it back
  method Give(r: array<int8>, i: nat, ghost start: seq<int8>) returns (ghost lost: bool)
    requires r.Length == 256 && i + 4 < 256 && |start| == 256
    requires forall j :: i < j < 256 ==> IsBit(r[j])
    requires r[i + 4] == 1 && 1 <= r[i] <= 15
    requires forall j :: i < j < i + 4 ==> r[j] == 0
    requires r[..i] == start[..i] && Digits(r[..], 2) == Digits(start, 2)
    requires -Pow(2, i) < Digits(start[..i], 2)
    modifies r
    ensures r[..i] == start[..i] && r[i] == old(r[i]) - 16
    ensures forall j :: i < j < 256 ==> IsBit(r[j])
    ensures forall j :: i < j < i + 5 ==> r[j] == 0
    ensures Digits(r[..], 2) == Digits(start, 2) - (if lost then Pow(2, 256) else 0)
    ensures lost ==> Digits(start, 2) > EXP255
    ensures lost ==> forall j :: i < j < 256 ==> r[j] == 0
  {
    hide Digits, Pow;
    ghost var was := r[..];
    r[i] := r[i] - r[i + 4] * 16;
    ghost var mid := r[..];
    DigitsUpdate(was, i, was[i] - 16, 2);
    assert mid == was[i := was[i] - 16];
    PowTwoSteps(i);
    lost := Ripple(r, i + 4);
    assert r[..i + 4] == mid[..i + 4];
    assert forall j :: 0 <= j < i + 4 ==> r[j] == r[..i + 4][j] == mid[j];
    if lost {
      DigitsLow(r[..], i + 1, 2);
      DigitsSnoc(r[..], i, 2);
      assert r[..][..i + 1] == r[..i + 1] && r[..][..i] == start[..i];
      PowMonotone(i + 4, 255);
      PowTop();
      FellOff(Pow(2, i), Digits(start[..i], 2), r[i] as int);
    }
  }

  lemma FellOff(p: int, low: int, d: int)
    requires -p < low && d >= -15 && p >= 1
    ensures low + p * d > -16 * p
  {
    assert p * (d + 15) >= 0;
  }

  // The recoding: digits that are zero or odd and at most 15 in size, any two nonzero ones at least five apart,
  // and the same number, for every scalar below 2^255. Above that a carry can run off the end, and then exactly
  // 2^256 is lost.
  method Slide(r: array<int8>, a: seq<byte>)
    requires r.Length == 256 && |a| == 32
    modifies r
    ensures forall j :: 0 <= j < 256 ==> IsWindow(r[j])
    ensures forall j, k :: 0 <= j < k < 256 && r[j] != 0 && r[k] != 0 ==> k - j >= 5
    ensures Le(a) < EXP255 ==> Digits(r[..], 2) == Le(a)
    ensures Digits(r[..], 2) == Le(a) || Digits(r[..], 2) == Le(a) - 2 * EXP255
  {
    ExpandBits(r, a);
    PowTop();
    SlideDigits(r, Le(a));
  }

  method SlideDigits(r: array<int8>, ghost n: nat)
    requires r.Length == 256 && forall j :: 0 <= j < 256 ==> IsBit(r[j])
    requires Digits(r[..], 2) == n
    modifies r
    ensures forall j :: 0 <= j < 256 ==> IsWindow(r[j])
    ensures forall j, k :: 0 <= j < k < 256 && r[j] != 0 && r[k] != 0 ==> k - j >= 5
    ensures n <= EXP255 ==> Digits(r[..], 2) == n
    ensures Digits(r[..], 2) == n || Digits(r[..], 2) == n - Pow(2, 256)
  {
    var i := 0;
    ghost var free := 0;
    LowStart(r[..]);
    hide Digits, Pow;
    while i < 256
      invariant 0 <= i <= 256
      invariant forall j :: 0 <= j < i ==> IsWindow(r[j])
      invariant forall j :: i <= j < 256 ==> IsBit(r[j])
      invariant forall j :: 0 <= j < i && r[j] != 0 ==> j + 5 <= free
      invariant forall j, k :: 0 <= j < k < i && r[j] != 0 && r[k] != 0 ==> k - j >= 5
      invariant forall j :: i <= j < free && j < 256 ==> r[j] == 0
      invariant LowPart(r[..i], if i < free then free else i)
      invariant Digits(r[..], 2) == n ||
                (Digits(r[..], 2) == n - Pow(2, 256) && n > EXP255 && forall j :: i <= j < 256 ==> r[j] == 0)
    {
      ghost var was := r[..];
      if r[i] != 0 {
        LowElim(r[..i], i);
        assert was[..i] == r[..i];
        ghost var lost := Absorb(r, i);
        assert r[..i] == was[..i];
        assert forall j :: 0 <= j < i ==> r[j] == r[..i][j] == was[..i][j] == was[j];
        free := i + 5;
        LowNext(r[..], i, free);
      } else {
        LowSkip(r[..], i, if i < free then free else i, if i + 1 < free then free else i + 1);
      }
      assert r[..][..i + 1] == r[..i + 1];
      i := i + 1;
    }
  }

  // The digits already settled are worth less than 2^m in size.
  ghost predicate LowPart(s: seq<int8>, m: nat) {
    -Pow(2, m) < Digits(s, 2) < Pow(2, m)
  }

  lemma LowStart(s: seq<int8>)
    ensures LowPart(s[..0], 0)
  {
  }

  lemma {:induction false} LowElim(s: seq<int8>, m: nat)
    requires LowPart(s, m)
    ensures -Pow(2, m) < Digits(s, 2) < Pow(2, m)
  {
  }

  lemma LowNext(s: seq<int8>, i: nat, m: nat)
    requires i < |s| && m == i + 5 && LowPart(s[..i], i) && IsWindow(s[i])
    ensures LowPart(s[..i + 1], m)
  {
    hide Digits, Pow;
    DigitsSnoc(s, i, 2);
    PowTwoSteps(i);
    PowTwoSteps(i + 1);
    LowProduct(Pow(2, i), s[i] as int);
  }

  lemma LowProduct(p: int, d: int)
    requires p >= 1 && -15 <= d <= 15
    ensures -15 * p <= p * d <= 15 * p
  {
    assert p * (d + 15) >= 0 && p * (15 - d) >= 0;
  }

  lemma LowSkip(s: seq<int8>, i: nat, m: nat, n: nat)
    requires i < |s| && s[i] == 0 && m <= n && LowPart(s[..i], m)
    ensures LowPart(s[..i + 1], n)
  {
    hide Digits, Pow;
    DigitsSnoc(s, i, 2);
    PowMonotone(m, n);
  }

  // ----- the radix-16 recoding of ge_scalarmult_base -----

  ghost function Nibbles(a: seq<byte>): (s: seq<int8>)
    ensures |s| == 2 * |a|
  {
    if a == [] then [] else [(a[0] % 16) as int8, (a[0] / 16) as int8] + Nibbles(a[1..])
  }

  lemma {:induction false} NibblesValue(a: seq<byte>)
    ensures Digits(Nibbles(a), 16) == Le(a)
    decreases a
  {
    if a != [] {
      NibblesValue(a[1..]);
      var low, high, rest := (a[0] % 16) as int8, (a[0] / 16) as int8, Nibbles(a[1..]);
      assert Nibbles(a) == [low] + ([high] + rest);
      assert ([low] + ([high] + rest))[1..] == [high] + rest;
      assert ([high] + rest)[1..] == rest;
    }
  }

  lemma {:induction false} NibblesAt(a: seq<byte>, i: nat)
    requires i < |a|
    ensures Nibbles(a)[2 * i] as int == a[i] % 16 && Nibbles(a)[2 * i + 1] as int == a[i] / 16
    decreases a
  {
    if i > 0 {
      NibblesAt(a[1..], i - 1);
    }
  }

  lemma {:induction false} NibbleMasks(b: byte)
    ensures BitAnd(15, b) == b % 16 && BitAnd(15, b / 16) == b / 16
  {
    hide BitAnd, Exp2;
    ExpSmall();
    BitAndMask(b, 4);
    BitAndMask(b / 16, 4);
  }

  // Sixty-four digits between -8 and 8 with the value of the scalar, and no signed char overflow on the way.
  method Radix16(e: array<int8>, a: seq<byte>)
    requires e.Length == 64 && |a| == 32
    requires a[31] <= 127
    modifies e
    ensures forall j :: 0 <= j < 64 ==> -8 <= e[j] <= 8
    ensures Digits(e[..], 16) == Le(a)
  {
    hide Digits, Le, BitAnd, Nibbles, Pow;
    SplitNibbles(e, a);
    NibblesAt(a, 31);
    var carry: int8 := 0;
    var i := 0;
    PowZero(16);
    while i < 63
      invariant 0 <= i <= 63 && 0 <= carry <= 1
      invariant forall j :: 0 <= j < i ==> -8 <= e[j] <= 8
      invariant forall j :: i <= j < 64 ==> 0 <= e[j] <= 15
      invariant e[63] <= 7
      invariant Digits(e[..], 16) + Pow(16, i) * (carry as int) == Le(a)
    {
      ghost var was, before := e[..], carry;
      e[i] := e[i] + carry;
      carry := e[i] + 8;
      carry := carry / 16;
      e[i] := e[i] - carry * 16;
      assert e[..] == was[i := e[i]];
      CarryNibble(was, i, e[i], before as int, carry as int);
      i := i + 1;
    }
    DigitsUpdate(e[..], 63, e[63] + carry, 16);
    ghost var was := e[..];
    e[63] := e[63] + carry;
    assert e[..] == was[63 := e[63]];
  }

  lemma {:induction false} PowZero(b: int)
    ensures Pow(b, 0) == 1
  {
  }

  lemma CarryNibble(s: seq<int8>, i: nat, v: int8, before: int, carry: int)
    requires i < |s| && s[i] as int + before == v as int + 16 * carry
    ensures Digits(s[i := v], 16) + Pow(16, i + 1) * carry == Digits(s, 16) + Pow(16, i) * before
  {
    DigitsUpdate(s, i, v, 16);
    hide Digits;
    var p := Pow(16, i);
    assert Pow(16, i + 1) == 16 * p;
    hide Pow;
    CarryProductOf(p, v as int, s[i] as int, before, carry);
  }

  lemma CarryProductOf(p: int, v: int, s: int, before: int, carry: int)
    requires s + before == v + 16 * carry
    ensures p * (v - s) + (16 * p) * carry == p * before
  {
    assert p * (v - s + 16 * carry) == p * before;
  }

  method SplitNibbles(e: array<int8>, a: seq<byte>)
    requires e.Length == 64 && |a| == 32
    modifies e
    ensures e[..] == Nibbles(a) && Digits(e[..], 16) == Le(a)
    ensures forall j :: 0 <= j < 64 ==> 0 <= e[j] <= 15
  {
    hide Digits, Le, BitAnd, Nibbles;
    var i := 0;
    while i < 32
      invariant 0 <= i <= 32
      invariant forall j :: 0 <= j < 2 * i ==> e[j] == Nibbles(a)[j] && 0 <= e[j] <= 15
    {
      NibbleMasks(a[i]);
      NibblesAt(a, i);
      e[2 * i] := BitAnd(15, a[i]) as int8;
      e[2 * i + 1] := BitAnd(15, a[i] / 16) as int8;
      i := i + 1;
    }
    NibblesValue(a);
    assert e[..] == Nibbles(a);
  }
}
