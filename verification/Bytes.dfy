// Bytes, little-endian numbers, and the C bit operations on non-negative numbers.
module Bytes {

  type byte = n: nat | n < 256

  // ----- bitwise operations, defined bit by bit -----

  function BitOr(a: nat, b: nat): nat
    decreases a + b
  {
    if a == 0 && b == 0 then 0
    else (if a % 2 == 1 || b % 2 == 1 then 1 else 0) + 2 * BitOr(a / 2, b / 2)
  }

  function BitAnd(a: nat, b: nat): nat
    decreases a + b
  {
    if a == 0 && b == 0 then 0
    else (if a % 2 == 1 && b % 2 == 1 then 1 else 0) + 2 * BitAnd(a / 2, b / 2)
  }

  function BitXor(a: nat, b: nat): nat
    decreases a + b
  {
    if a == 0 && b == 0 then 0
    else (if a % 2 != b % 2 then 1 else 0) + 2 * BitXor(a / 2, b / 2)
  }

  function Exp2(k: nat): (p: nat)
    ensures p >= 1
  {
    if k == 0 then 1 else 2 * Exp2(k - 1)
  }

  // 2^32, the number of values of a 32-bit word
  const WORD: nat := 0x1_0000_0000

  // 2^255
  const EXP255: nat := 0x8000_0000_0000_0000_0000_0000_0000_0000_0000_0000_0000_0000_0000_0000_0000_0000

  // OR of numbers that share no bit position is their sum.
  lemma {:induction false} BitOrDisjoint(a: nat, b: nat, k: nat)
    requires a < Exp2(k)
    ensures BitOr(a, Exp2(k) * b) == a + Exp2(k) * b
    decreases k
  {
    if k == 0 {
      BitOrZero(b);
    } else {
      var c := Exp2(k - 1) * b;
      assert Exp2(k) * b == 2 * c;
      BitOrDisjoint(a / 2, b, k - 1);
    }
  }

  lemma {:induction false} BitOrZero(b: nat)
    ensures BitOr(0, b) == b
    decreases b
  {
    if b > 0 {
      BitOrZero(b / 2);
    }
  }

  // AND with 2^k - 1 keeps the low k bits.
  lemma {:induction false} BitAndMask(a: nat, k: nat)
    ensures BitAnd(Exp2(k) - 1, a) == a % Exp2(k)
    decreases k
  {
    if k == 0 {
      BitAndZero(a);
    } else {
      BitAndMask(a / 2, k - 1);
      assert (Exp2(k) - 1) / 2 == Exp2(k - 1) - 1;
      ModDouble(a, Exp2(k - 1));
    }
  }

  // AND with a mask that starts at bit k.
  lemma {:induction false} AndShift(k: nat, m: nat, b: nat)
    ensures b / Exp2(k) >= 0
    ensures BitAnd(Exp2(k) * m, b) == Exp2(k) * BitAnd(m, b / Exp2(k))
    decreases k
  {
    hide BitAnd, Exp2;
    if k == 0 {
      ExpSmall();
    } else {
      ExpStep(k);
      var e := Exp2(k - 1);
      AndShift(k - 1, m, b / 2);
      AndTwice(e * m, b);
      HalfThenDivide(b, e);
      TwiceProduct(e, m);
      TwiceProduct(e, BitAnd(m, b / 2 / e));
    }
  }

  lemma ExpStep(k: nat)
    requires k > 0
    ensures Exp2(k) == 2 * Exp2(k - 1)
  {
  }

  lemma TwiceProduct(e: int, m: int)
    ensures (2 * e) * m == 2 * (e * m)
  {
  }

  lemma {:induction false} AndTwice(m: nat, b: nat)
    ensures BitAnd(2 * m, b) == 2 * BitAnd(m, b / 2)
  {
  }

  lemma HalfThenDivide(b: nat, e: nat)
    requires e >= 1
    ensures b / (2 * e) == b / 2 / e
  {
    var q, r := b / 2 / e, b / 2 % e;
    assert b == 2 * (e * q + r) + b % 2;
    DivModUnique(b, 2 * e, q, 2 * r + b % 2);
  }

  lemma ModDouble(a: nat, m: nat)
    requires m >= 1
    ensures a % (2 * m) == a % 2 + 2 * ((a / 2) % m)
  {
    var q := (a / 2) / m;
    var r := (a / 2) % m;
    assert a == (2 * m) * q + (2 * r + a % 2) by {
      assert a / 2 == m * q + r;
    }
    DivModUnique(a, 2 * m, q, 2 * r + a % 2);
  }

  lemma DivModUnique(a: int, m: int, q: int, r: int)
    requires m > 0 && a == m * q + r && 0 <= r < m
    ensures a / m == q && a % m == r
  {
    var d := a / m - q;
    assert m * d == r - a % m;
    if d != 0 {
      MulAtLeast(m, d);
      assert false;
    }
  }

  lemma DivBounds(x: nat, m: nat)
    requires m >= 1
    ensures 0 <= x / m <= x && m * (x / m) <= x
  {
    var q := x / m;
    assert x == m * q + x % m;
    if q < 0 {
      MulAtLeast(m, q);
      assert false;
    }
    assert q <= m * q;
  }

  lemma MulAtLeast(m: int, d: int)
    requires m > 0 && d != 0
    ensures m * d >= m || m * d <= -m
  {
    if d >= 1 {
      assert m * d >= m;
    } else {
      assert m * d <= -m;
    }
  }

  lemma {:induction false} BitAndZero(a: nat)
    ensures BitAnd(0, a) == 0
    decreases a
  {
    if a > 0 {
      BitAndZero(a / 2);
    }
  }

  // ----- little-endian numbers -----

  ghost function Le(s: seq<byte>): nat
    decreases s
  {
    if s == [] then 0 else s[0] + 256 * Le(s[1..])
  }

  lemma {:induction false} LeSplit(s: seq<byte>, t: seq<byte>)
    ensures Le(s + t) == Le(s) + Exp2(8 * |s|) * Le(t)
    decreases s
  {
    hide Exp2;
    ExpSmall();
    if s == [] {
      assert s + t == t;
    } else {
      assert (s + t)[1..] == s[1..] + t;
      LeSplit(s[1..], t);
      var r := Exp2(8 * |s[1..]|);
      assert Exp2(8 * |s|) == 256 * r by {
        ExpAdd(8, 8 * |s[1..]|);
        assert 8 + 8 * |s[1..]| == 8 * |s|;
      }
      ScaleBy256(r, Le(t));
    }
  }

  lemma ScaleBy256(r: int, x: int)
    ensures (256 * r) * x == 256 * (r * x)
  {
  }

  lemma {:induction false} ExpAdd(j: nat, k: nat)
    ensures Exp2(j + k) == Exp2(j) * Exp2(k)
    decreases j
  {
    if j > 0 {
      ExpAdd(j - 1, k);
      assert j + k - 1 == j - 1 + k;
    }
  }

  lemma ExpSmall()
    ensures Exp2(0) == 1 && Exp2(1) == 2 && Exp2(2) == 4 && Exp2(3) == 8 && Exp2(4) == 16
    ensures Exp2(5) == 32 && Exp2(6) == 64 && Exp2(7) == 128 && Exp2(8) == 256
    ensures Exp2(16) == 0x1_0000 && Exp2(24) == 0x100_0000 && Exp2(32) == 0x1_0000_0000
    ensures Exp2(21) == 0x20_0000 && Exp2(23) == 0x80_0000
  {
  }

  lemma {:induction false} LeBound(s: seq<byte>)
    ensures Le(s) < Exp2(8 * |s|)
    decreases s
  {
    if s != [] {
      LeBound(s[1..]);
      ExpAdd(8, 8 * |s[1..]|);
      ExpSmall();
      assert 8 + 8 * |s[1..]| == 8 * |s|;
    }
  }

  // Equal-length byte strings with the same value are the same.
  lemma {:induction false} LeInjective(s: seq<byte>, t: seq<byte>)
    requires |s| == |t| && Le(s) == Le(t)
    ensures s == t
    decreases s
  {
    if s != [] {
      assert s[0] == Le(s) % 256 == Le(t) % 256 == t[0];
      LeInjective(s[1..], t[1..]);
      assert s == [s[0]] + s[1..] && t == [t[0]] + t[1..];
    }
  }

  // load_3 and load_4 of fe.c and sc.c
  function Load3(s: seq<byte>, i: nat): nat
    requires i + 3 <= |s|
  {
    BitOr(BitOr(s[i], 0x100 * (s[i + 1] as nat)), 0x1_0000 * (s[i + 2] as nat))
  }

  function Load4(s: seq<byte>, i: nat): nat
    requires i + 4 <= |s|
  {
    BitOr(BitOr(BitOr(s[i], 0x100 * (s[i + 1] as nat)), 0x1_0000 * (s[i + 2] as nat)), 0x100_0000 * (s[i + 3] as nat))
  }

  lemma Load3Value(s: seq<byte>, i: nat)
    requires i + 3 <= |s|
    ensures Load3(s, i) == Le(s[i..i + 3]) < 0x100_0000
  {
    ExpSmall();
    var a: nat, b: nat, c: nat := s[i], s[i + 1], s[i + 2];
    BitOrDisjoint(a, b, 8);
    BitOrDisjoint(a + 0x100 * b, c, 16);
    LeThree(s[i], s[i + 1], s[i + 2]);
    assert s[i..i + 3] == [s[i], s[i + 1], s[i + 2]];
  }

  lemma Load4Value(s: seq<byte>, i: nat)
    requires i + 4 <= |s|
    ensures Load4(s, i) == Le(s[i..i + 4]) < 0x1_0000_0000
  {
    ExpSmall();
    var a: nat, b: nat, c: nat, d: nat := s[i], s[i + 1], s[i + 2], s[i + 3];
    BitOrDisjoint(a, b, 8);
    BitOrDisjoint(a + 0x100 * b, c, 16);
    BitOrDisjoint(a + 0x100 * b + 0x1_0000 * c, d, 24);
    LeFour(s[i], s[i + 1], s[i + 2], s[i + 3]);
    assert s[i..i + 4] == [s[i], s[i + 1], s[i + 2], s[i + 3]];
  }

  lemma LeThree(a: byte, b: byte, c: byte)
    ensures Le([a, b, c]) == a as int + 0x100 * (b as int) + 0x1_0000 * (c as int)
  {
    assert [a, b, c][1..] == [b, c];
    assert [b, c][1..] == [c];
    assert Le([c]) == c;
  }

  lemma LeFour(a: byte, b: byte, c: byte, d: byte)
    ensures Le([a, b, c, d]) == a as int + 0x100 * (b as int) + 0x1_0000 * (c as int) + 0x100_0000 * (d as int)
  {
    assert [a, b, c, d][1..] == [b, c, d];
    LeThree(b, c, d);
  }
}
