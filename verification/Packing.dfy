// Laying digits of a radix that is not a power of 256 out as bytes, as fe_tobytes and sc_reduce do:
// a byte shared by two digits is the OR of their shifted parts.
module Packing {
  import opened Bytes

  // A digit in four pieces: the low part, (h >> k) & 255 and (h >> k + 8) & 255, and h >> k + 16, where m = 2^k.
  method Pieces(h: nat, m: nat) returns (low: nat, second: byte, third: byte, top: nat)
    requires 1 <= m <= 256
    ensures low == h % m < m
    ensures h == low + m * second + m * 0x100 * third + m * 0x1_0000 * top
    ensures h < m * 0x100_0000 ==> top < 0x100
  {
    SplitDigit(h, m);
    if h < m * 0x100_0000 {
      TopPiece(h, m);
    }
    low := h % m;
    second := h / m % 256;
    third := h / (m * 0x100) % 256;
    top := h / (m * 0x1_0000);
  }

  lemma TopPiece(h: nat, m: nat)
    requires 1 <= m && h < m * 0x100_0000
    ensures h / (m * 0x1_0000) < 0x100
  {
    var n := m * 0x1_0000;
    var q := h / n;
    assert n * q <= h < n * 0x100;
    if q >= 0x100 {
      MulAtLeast(n, q - 0xff);
      assert false;
    }
  }

  // (unsigned char) (low | (high << k)), where low < m = 2^k
  method SharedByte(low: nat, high: nat, ghost k: nat, m: nat, ghost n: nat) returns (b: byte)
    requires m == Exp2(k) && low < m && m * n == 256
    ensures b as int == low + m * (high % n)
  {
    b := BitOr(low, high * m) % 256;
    JoinByte(low, high, k, m, n);
  }

  lemma SplitDigit(h: nat, m: nat)
    requires m >= 1
    ensures 0 <= h % m < m && 0 <= h / (m * 0x1_0000)
    ensures h == h % m + m * (h / m % 256) + m * 0x100 * (h / (m * 0x100) % 256) + m * 0x1_0000 * (h / (m * 0x1_0000))
  {
    var r, y := h % m, h / m;
    var u, v := h / (m * 0x100), h / (m * 0x1_0000);
    assert u == y / 256 by { DivTwice(h, m, 0x100); }
    assert v == y / 0x1_0000 by { DivTwice(h, m, 0x1_0000); }
    ThreeDigits(y);
    SplitProduct(h, m, r, y, y % 256, u % 256, v);
  }

  lemma ThreeDigits(y: nat)
    ensures y == y % 256 + 0x100 * (y / 256 % 256) + 0x1_0000 * (y / 0x1_0000)
  {
  }

  lemma SplitProduct(h: int, m: int, r: int, y: int, a: int, b: int, c: int)
    requires h == r + m * y && y == a + 0x100 * b + 0x1_0000 * c
    ensures h == r + m * a + m * 0x100 * b + m * 0x1_0000 * c
  {
    assert m * y == m * a + m * (0x100 * b) + m * (0x1_0000 * c);
  }

  lemma DivTwice(h: nat, m: nat, n: nat)
    requires m >= 1 && n >= 1
    ensures h / m / n == h / (m * n)
  {
    FloorStep(0, h, m, n);
  }

  lemma {:induction false} JoinByte(low: nat, high: nat, k: nat, m: nat, n: nat)
    requires m == Exp2(k) && low < m && m * n == 256
    ensures BitOr(low, high * m) % 256 == low + m * (high % n)
  {
    hide BitOr, Exp2;
    BitOrDisjoint(low, high, k);
    assert high * m == m * high;
    assert n >= 1;
    var q, r := high / n, high % n;
    JoinProduct(low, high, m, n, q, r);
    DivModUnique(low + m * high, 256, q, low + m * r);
  }

  lemma JoinProduct(low: nat, high: nat, m: nat, n: nat, q: nat, r: nat)
    requires low < m && m * n == 256 && high == n * q + r && r < n
    ensures low + m * high == 256 * q + (low + m * r) && low + m * r < 256
  {
    assert m * high == m * (n * q) + m * r;
    assert m * (n * q) == (m * n) * q;
    assert m * r <= m * (n - 1);
  }

  lemma {:induction false} LeEmpty(s: seq<byte>)
    requires s == []
    ensures Le(s) == 0
  {
  }

  lemma FirstFour(s: seq<byte>, i: nat)
    requires i + 4 <= |s|
    ensures Le(s[i..]) == s[i] as int + 0x100 * (s[i + 1] as int) + 0x1_0000 * (s[i + 2] as int)
                     + 0x100_0000 * (s[i + 3] as int) + 0x1_0000_0000 * Le(s[i + 4..])
  {
    var first := [s[i], s[i + 1], s[i + 2], s[i + 3]];
    assert s[i..] == first + s[i + 4..];
    LeSplit(first, s[i + 4..]);
    LeFour(s[i], s[i + 1], s[i + 2], s[i + 3]);
    ExpSmall();
  }

  // A floor of a floor is a floor: (a + floor(x / m)) / n rounded down is (a m + x) / (m n) rounded down.
  lemma FloorStep(a: int, x: int, m: int, n: int)
    requires m > 0 && n > 0
    ensures (a + x / m) / n == (a * m + x) / (m * n)
  {
    var q := (a + x / m) / n;
    var r := (a + x / m) % n;
    assert a * m + x == (m * n) * q + (m * r + x % m) by {
      assert m * (a + x / m) == m * (n * q + r);
      assert m * (n * q) == (m * n) * q;
    }
    assert m * r + x % m < m * n by {
      assert m * r <= m * (n - 1);
    }
    assert m * r >= 0;
    DivModUnique(a * m + x, m * n, q, m * r + x % m);
  }

  lemma {:induction false} LeSixteen(s: seq<byte>)
    requires |s| == 16
    ensures Le(s) == s[0] as int + 0x100 * (s[1] as int) + 0x1_0000 * (s[2] as int) + 0x100_0000 * (s[3] as int)
                     + 0x1_0000_0000 * (s[4] as int) + 0x100_0000_0000 * (s[5] as int)
                     + 0x1_0000_0000_0000 * (s[6] as int) + 0x100_0000_0000_0000 * (s[7] as int)
                     + 0x1_0000_0000_0000_0000 * (s[8] as int) + 0x100_0000_0000_0000_0000 * (s[9] as int)
                     + 0x1_0000_0000_0000_0000_0000 * (s[10] as int)
                     + 0x100_0000_0000_0000_0000_0000 * (s[11] as int)
                     + 0x1_0000_0000_0000_0000_0000_0000 * (s[12] as int)
                     + 0x100_0000_0000_0000_0000_0000_0000 * (s[13] as int)
                     + 0x1_0000_0000_0000_0000_0000_0000_0000 * (s[14] as int)
                     + 0x100_0000_0000_0000_0000_0000_0000_0000 * (s[15] as int)
  {
    hide Le;
    FirstFour(s, 12);
    FirstFour(s, 8);
    FirstFour(s, 4);
    FirstFour(s, 0);
    assert s[0..] == s;
    LeEmpty(s[16..]);
  }

  lemma LeOne(b: byte)
    ensures Le([b]) == b
  {
  }

  lemma Exp128()
    ensures Exp2(8 * 16) == 0x1_0000_0000_0000_0000_0000_0000_0000_0000
  {
    ExpSmall();
    ExpAdd(32, 32);
    ExpAdd(64, 64);
  }

  lemma Exp248()
    ensures Exp2(8 * 31) * 128 == EXP255
  {
    ExpSmall();
    ExpAdd(32, 32);
    ExpAdd(64, 64);
    ExpAdd(16, 8);
    ExpAdd(32, 24);
    ExpAdd(64, 56);
    ExpAdd(128, 120);
  }

  // ----- bit windows of a byte string -----

  lemma {:induction false} DropIsDiv(s: seq<byte>, k: nat)
    requires k <= |s|
    ensures Le(s[k..]) == Le(s) / Exp2(8 * k)
  {
    assert s == s[..k] + s[k..];
    LeSplit(s[..k], s[k..]);
    LeBound(s[..k]);
    hide Le, Exp2;
    DivModUnique(Le(s), Exp2(8 * k), Le(s[k..]), Le(s[..k]));
  }

  // The w bits from bit r of the n bytes from k on are the w bits from bit 8 k + r of the whole string.
  lemma Window(s: seq<byte>, k: nat, n: nat, r: nat, w: nat)
    requires k + n <= |s| && r + w <= 8 * n
    ensures Le(s[k..k + n]) / Exp2(r) % Exp2(w) == Le(s) / Exp2(8 * k + r) % Exp2(w)
  {
    hide Le, Exp2;
    var low, high := Le(s[k..k + n]), Le(s[k + n..]);
    assert Le(s[k..]) == low + Exp2(8 * n) * high by {
      assert s[k..] == s[k..k + n] + s[k + n..];
      LeSplit(s[k..k + n], s[k + n..]);
    }
    assert Le(s) / Exp2(8 * k + r) == Le(s[k..]) / Exp2(r) by {
      DropIsDiv(s, k);
      ExpAdd(8 * k, r);
      DivTwice(Le(s), Exp2(8 * k), Exp2(r));
    }
    WindowWidth(n, r, w);
    CutWindow(low, high, Exp2(r), Exp2(w), Exp2(8 * n - r - w));
  }

  lemma WindowWidth(n: nat, r: nat, w: nat)
    requires r + w <= 8 * n
    ensures Exp2(8 * n) == Exp2(r) * Exp2(w) * Exp2(8 * n - r - w)
  {
    ExpAdd(r, w);
    ExpAdd(r + w, 8 * n - r - w);
  }

  lemma CutWindow(low: nat, high: nat, m: nat, w: nat, n: nat)
    requires m >= 1 && w >= 1
    ensures (low + (m * w * n) * high) / m % w == low / m % w
  {
    var c := w * (n * high);
    FourFactors(m, w, n, high);
    AddMultiple(low, m, c);
    DivBounds(low, m);
    AddMultipleMod(low / m, w, n * high);
  }

  lemma FourFactors(m: nat, w: nat, n: nat, h: nat)
    ensures (m * w * n) * h == m * (w * (n * h)) && n * h >= 0 && w * (n * h) >= 0
  {
    assert (m * w * n) * h == (m * w) * (n * h);
  }

  lemma AddMultiple(x: nat, m: nat, c: nat)
    requires m >= 1
    ensures (x + m * c) / m == x / m + c
  {
    assert x == m * (x / m) + x % m;
    assert m * (x / m + c) == m * (x / m) + m * c;
    DivModUnique(x + m * c, m, x / m + c, x % m);
  }

  lemma AddMultipleMod(x: nat, m: nat, c: nat)
    requires m >= 1
    ensures (x + m * c) % m == x % m
  {
    assert x == m * (x / m) + x % m;
    assert m * (x / m + c) == m * (x / m) + m * c;
    DivModUnique(x + m * c, m, x / m + c, x % m);
  }
}
