// ntfe/ed25519/sc.c: sc_reduce and sc_muladd, exact arithmetic modulo the group order on little-endian bytes.
module Scalar {
  import opened Bytes
  import opened Packing
  import opened Limbs
  import opened ScalarLimbs
  import opened ScalarReduction

  // ----- unpacking -----

  // x >> (21 j)
  ghost function Shifted(x: nat, j: nat): nat {
    DivBounds(x, Exp2(21 * j));
    x / Exp2(21 * j)
  }

  lemma ShiftedNext(x: nat, j: nat)
    ensures Shifted(x, j) == Shifted(x, j) % 0x20_0000 + 0x20_0000 * Shifted(x, j + 1)
    ensures Shifted(x, j + 1) == Shifted(x, j) / 0x20_0000
  {
    ExpSmall();
    ExpAdd(21 * j, 21);
    assert 21 * (j + 1) == 21 * j + 21;
    DivTwice(x, Exp2(21 * j), 0x20_0000);
  }

  // Limbs 21 bits apart, the last one taking all that is left, add up to the number.
  lemma {:induction false} LimbsTotal(s: seq<int64>, x: nat, j: nat)
    requires j < |s|
    requires forall k | j <= k < |s| - 1 :: s[k] as int == Shifted(x, k) % 0x20_0000
    requires s[|s| - 1] as int == Shifted(x, |s| - 1)
    ensures Eval21(s[j..]) == Shifted(x, j)
    decreases |s| - j
  {
    hide Shifted;
    EvalStep(s, j);
    if j + 1 < |s| {
      LimbsTotal(s, x, j + 1);
      ShiftedNext(x, j);
    } else {
      assert s[j + 1..] == [];
    }
  }

  // n bytes from k on, shifted right by r and cut to 21 bits, if those 21 bits lie within the n bytes.
  lemma {:induction false} WindowLimb(s: seq<byte>, k: nat, n: nat, r: nat, j: nat)
    requires k + n <= |s| && r + 21 <= 8 * n && 8 * k + r == 21 * j
    ensures Le(s[k..k + n]) / Exp2(r) % 0x20_0000 == Shifted(Le(s), j) % 0x20_0000
  {
    hide Le, Exp2, Shifted;
    ExpSmall();
    Window(s, k, n, r, 21);
    ShiftedMeaning(Le(s), j);
  }

  lemma {:induction false} ShiftedMeaning(x: nat, j: nat)
    ensures Shifted(x, j) == x / Exp2(21 * j)
  {
  }

  // 2097151 & (load >> r), where m = 2^r
  method Masked(load: nat, m: nat) returns (v: int64)
    requires m >= 1
    ensures v as int == load / m % 0x20_0000
  {
    hide BitAnd, Exp2;
    ExpSmall();
    DivBounds(load, m);
    BitAndMask(load / m, 21);
    v := BitAnd(2097151, load / m) as int64;
  }

  method Limb3(s: seq<byte>, k: nat, m: nat, ghost r: nat, ghost j: nat) returns (v: int64)
    requires k + 3 <= |s| && m == Exp2(r) && r <= 3 && 8 * k + r == 21 * j
    ensures v as int == Shifted(Le(s), j) % 0x20_0000
  {
    hide *;
    Load3Value(s, k);
    WindowLimb(s, k, 3, r, j);
    v := Masked(Load3(s, k), m);
  }

  method Limb4(s: seq<byte>, k: nat, m: nat, ghost r: nat, ghost j: nat) returns (v: int64)
    requires k + 4 <= |s| && m == Exp2(r) && r <= 11 && 8 * k + r == 21 * j
    ensures v as int == Shifted(Le(s), j) % 0x20_0000
  {
    hide *;
    Load4Value(s, k);
    WindowLimb(s, k, 4, r, j);
    v := Masked(Load4(s, k), m);
  }

  // The last limb is not masked: the four bytes are the last ones.
  method LastLimb(s: seq<byte>, m: nat, ghost r: nat, ghost j: nat) returns (v: int64)
    requires |s| >= 4 && m == Exp2(r) && 8 * (|s| - 4) + r == 21 * j
    ensures v as int == Shifted(Le(s), j)
    ensures 0 <= v as int && m * (v as int) < 0x1_0000_0000
  {
    hide Le, Load4, Exp2;
    var k := |s| - 4;
    Load4Value(s, k);
    assert s[k..k + 4] == s[k..];
    DivBounds(Load4(s, k), m);
    assert Load4(s, k) / m == Shifted(Le(s), j) by {
      DropIsDiv(s, k);
      ExpAdd(8 * k, r);
      DivTwice(Le(s), Exp2(8 * k), m);
    }
    v := (Load4(s, k) / m) as int64;
  }

  method LoadTwelve(s: seq<byte>) returns (v: seq<int64>)
    requires |s| == 32
    ensures |v| == 12 && Eval21(v) == Le(s)
    ensures (forall k | 0 <= k < 11 :: 0 <= v[k] < 0x20_0000) && 0 <= v[11] < 0x2000000
  {
    hide *;
    ExpSmall();
    var v0 := Limb3(s, 0, 1, 0, 0);
    var v1 := Limb4(s, 2, 32, 5, 1);
    var v2 := Limb3(s, 5, 4, 2, 2);
    var v3 := Limb4(s, 7, 128, 7, 3);
    var v4 := Limb4(s, 10, 16, 4, 4);
    var v5 := Limb3(s, 13, 2, 1, 5);
    var v6 := Limb4(s, 15, 64, 6, 6);
    var v7 := Limb3(s, 18, 8, 3, 7);
    var v8 := Limb3(s, 21, 1, 0, 8);
    var v9 := Limb4(s, 23, 32, 5, 9);
    var v10 := Limb3(s, 26, 4, 2, 10);
    var v11 := LastLimb(s, 128, 7, 11);
    v := [v0, v1, v2, v3, v4, v5, v6, v7, v8, v9, v10, v11];
    LimbsTotal(v, Le(s), 0);
    ShiftedZero(Le(s));
    assert v[0..] == v;
  }

  method LoadTwentyFour(s: seq<byte>) returns (v: seq<int64>)
    requires |s| == 64
    ensures |v| == 24 && Eval21(v) == Le(s)
    ensures (forall k | 0 <= k < 23 :: 0 <= v[k] < 0x20_0000) && 0 <= v[23] < 0x20000000
  {
    hide *;
    ExpSmall();
    var v0 := Limb3(s, 0, 1, 0, 0);
    var v1 := Limb4(s, 2, 32, 5, 1);
    var v2 := Limb3(s, 5, 4, 2, 2);
    var v3 := Limb4(s, 7, 128, 7, 3);
    var v4 := Limb4(s, 10, 16, 4, 4);
    var v5 := Limb3(s, 13, 2, 1, 5);
    var v6 := Limb4(s, 15, 64, 6, 6);
    var v7 := Limb3(s, 18, 8, 3, 7);
    var v8 := Limb3(s, 21, 1, 0, 8);
    var v9 := Limb4(s, 23, 32, 5, 9);
    var v10 := Limb3(s, 26, 4, 2, 10);
    var v11 := Limb4(s, 28, 128, 7, 11);
    var v12 := Limb4(s, 31, 16, 4, 12);
    var v13 := Limb3(s, 34, 2, 1, 13);
    var v14 := Limb4(s, 36, 64, 6, 14);
    var v15 := Limb3(s, 39, 8, 3, 15);
    var v16 := Limb3(s, 42, 1, 0, 16);
    var v17 := Limb4(s, 44, 32, 5, 17);
    var v18 := Limb3(s, 47, 4, 2, 18);
    var v19 := Limb4(s, 49, 128, 7, 19);
    var v20 := Limb4(s, 52, 16, 4, 20);
    var v21 := Limb3(s, 55, 2, 1, 21);
    var v22 := Limb4(s, 57, 64, 6, 22);
    var v23 := LastLimb(s, 8, 3, 23);
    v := [v0, v1, v2, v3, v4, v5, v6, v7, v8, v9, v10, v11,
         v12, v13, v14, v15, v16, v17, v18, v19, v20, v21, v22, v23];
    LimbsTotal(v, Le(s), 0);
    ShiftedZero(Le(s));
    assert v[0..] == v;
  }

  lemma ShiftedZero(x: nat)
    ensures Shifted(x, 0) == x
  {
    assert Exp2(0) == 1;
  }

  // ----- packing -----

  // Four limbs fill ten bytes, all but the top bits of the last.
  method PackFirst(t0: nat, t1: nat, t2: nat, t3: nat) returns (s: seq<byte>, top: nat)
    requires t0 < 0x20_0000 && t1 < 0x20_0000 && t2 < 0x20_0000 && t3 <= 0x20_0000
    ensures |s| == 10 && top <= 16 && (t3 < 0x20_0000 ==> top < 16)
    ensures Le(s) + 0x1_0000_0000_0000_0000_0000 * top
            == t0 + 0x20_0000 * t1 + 0x400_0000_0000 * t2 + 0x8000_0000_0000_0000 * t3
  {
    hide *;
    ExpSmall();
    var a0, b0, c0, d0 := Pieces(t0, 256);
    var a1, b1, c1, d1 := Pieces(t1, 8);
    var e1 := SharedByte(c0, t1, 5, 32, 8);
    var a2, b2, c2, d2 := Pieces(t2, 64);
    var e2 := SharedByte(d1, t2, 2, 4, 64);
    var a3, b3, c3, d3 := Pieces(t3, 2);
    var e3 := SharedByte(c2, t3, 7, 128, 2);
    s := [a0, b0, e1, b1, c1, e2, b2, e3, b3, c3];
    top := d3;
    LeTen(s);
  }

  // The next four fill the eleven bytes from there.
  method PackSecond(top: nat, t4: nat, t5: nat, t6: nat, t7: nat) returns (s: seq<byte>)
    requires top < 16 && t4 < 0x20_0000 && t5 < 0x20_0000 && t6 < 0x20_0000 && t7 < 0x20_0000
    ensures |s| == 11
    ensures Le(s) == top + 16 * t4 + 0x200_0000 * t5 + 0x4000_0000_0000 * t6 + 0x8_0000_0000_0000_0000 * t7
  {
    hide *;
    ExpSmall();
    var a4, b4, c4, d4 := Pieces(t4, 16);
    var e4 := SharedByte(top, t4, 4, 16, 16);
    var a5, b5, c5, d5 := Pieces(t5, 128);
    var e5 := SharedByte(d4, t5, 1, 2, 128);
    var a6, b6, c6, d6 := Pieces(t6, 4);
    var e6 := SharedByte(c5, t6, 6, 64, 4);
    var a7, b7, c7, d7 := Pieces(t7, 32);
    var e7 := SharedByte(d6, t7, 3, 8, 32);
    s := [e4, b4, c4, e5, b5, e6, b6, c6, e7, b7, c7];
    LeEleven(s);
  }

  // Limbs 0 to 7 fill bytes 0 to 20.
  method PackEight(t0: nat, t1: nat, t2: nat, t3: nat, t4: nat, t5: nat, t6: nat, t7: nat) returns (s: seq<byte>)
    requires t0 < 0x20_0000 && t1 < 0x20_0000 && t2 < 0x20_0000 && t3 < 0x20_0000
    requires t4 < 0x20_0000 && t5 < 0x20_0000 && t6 < 0x20_0000 && t7 < 0x20_0000
    ensures |s| == 21
    ensures Le(s) == t0 + 0x20_0000 * t1 + 0x400_0000_0000 * t2 + 0x8000_0000_0000_0000 * t3
            + 0x10_0000_0000_0000_0000_0000 * t4
                     + 0x200_0000_0000_0000_0000_0000_0000 * t5 + 0x4000_0000_0000_0000_0000_0000_0000_0000 * t6
                     + 0x8_0000_0000_0000_0000_0000_0000_0000_0000_0000 * t7
  {
    hide *;
    var low, top := PackFirst(t0, t1, t2, t3);
    var high := PackSecond(top, t4, t5, t6, t7);
    s := low + high;
    LeSplit(low, high);
    Exp80();
  }

  lemma Exp80()
    ensures Exp2(8 * 10) == 0x1_0000_0000_0000_0000_0000
  {
    ExpSmall();
    ExpAdd(32, 32);
    ExpAdd(64, 16);
  }

  // Limbs 8 to 11 fill bytes 21 to 31.
  method PackFour(t8: nat, t9: nat, t10: nat, t11: nat) returns (s: seq<byte>)
    requires t8 < 0x20_0000 && t9 < 0x20_0000 && t10 < 0x20_0000 && t11 <= 0x20_0000
    ensures |s| == 11
    ensures Le(s) == t8 + 0x20_0000 * t9 + 0x400_0000_0000 * t10 + 0x8000_0000_0000_0000 * t11
  {
    hide *;
    var low, top := PackFirst(t8, t9, t10, t11);
    s := low + [top];
    LeSplit(low, [top]);
    LeOne(top);
    Exp80();
  }

  lemma {:induction false} LeTen(s: seq<byte>)
    requires |s| == 10
    ensures Le(s) == s[0] as int + 0x100 * (s[1] as int) + 0x1_0000 * (s[2] as int) + 0x100_0000 * (s[3] as int)
                     + 0x1_0000_0000 * (s[4] as int) + 0x100_0000_0000 * (s[5] as int)
                     + 0x1_0000_0000_0000 * (s[6] as int) + 0x100_0000_0000_0000 * (s[7] as int)
                     + 0x1_0000_0000_0000_0000 * (s[8] as int) + 0x100_0000_0000_0000_0000 * (s[9] as int)
  {
    hide Le;
    FirstFour(s, 4);
    FirstFour(s, 0);
    assert s[8..] == [s[8]] + [s[9]];
    LeSplit([s[8]], [s[9]]);
    LeOne(s[8]);
    LeOne(s[9]);
    ExpSmall();
    assert s[0..] == s;
  }

  lemma {:induction false} LeEleven(s: seq<byte>)
    requires |s| == 11
    ensures Le(s) == s[0] as int + 0x100 * (s[1] as int) + 0x1_0000 * (s[2] as int) + 0x100_0000 * (s[3] as int)
                     + 0x1_0000_0000 * (s[4] as int) + 0x100_0000_0000 * (s[5] as int)
                     + 0x1_0000_0000_0000 * (s[6] as int) + 0x100_0000_0000_0000 * (s[7] as int)
                     + 0x1_0000_0000_0000_0000 * (s[8] as int) + 0x100_0000_0000_0000_0000 * (s[9] as int)
                     + 0x1_0000_0000_0000_0000_0000 * (s[10] as int)
  {
    hide Le;
    FirstFour(s, 4);
    FirstFour(s, 0);
    LeThree(s[8], s[9], s[10]);
    assert s[8..] == [s[8], s[9], s[10]];
    assert s[0..] == s;
  }

  // The 32 bytes of twelve canonical limbs.
  method Pack(t: seq<int64>) returns (s: seq<byte>)
    requires Canonical(t)
    ensures |s| == 32 && Le(s) == Eval21(t)
  {
    hide Le, Eval21;
    var low := PackEight(t[0] as int, t[1] as int, t[2] as int, t[3] as int, t[4] as int, t[5] as int, t[6] as int,
        t[7] as int);
    var high := PackFour(t[8] as int, t[9] as int, t[10] as int, t[11] as int);
    s := low + high;
    LeSplit(low, high);
    Exp168();
    EvalTwelve(t);
    EvalEmpty(t[12..]);
  }

  lemma {:induction false} EvalEmpty(t: seq<int64>)
    requires t == []
    ensures Eval21(t) == 0
  {
  }

  lemma Exp168()
    ensures Exp2(8 * 21) == 0x100_0000_0000_0000_0000_0000_0000_0000_0000_0000_0000
  {
    ExpSmall();
    ExpAdd(32, 32);
    ExpAdd(64, 64);
    ExpAdd(32, 8);
    ExpAdd(128, 40);
  }

  // ----- sc_reduce -----

  // Replaces the first 32 of 64 bytes by their value modulo l.
  method ScReduce(s: array<byte>)
    requires s.Length == 64
    modifies s
    ensures Le(s[..32]) == old(Le(s[..])) % L
    ensures s[32..] == old(s[32..])
  {
    hide Le, Eval21, Canonical;
    var v := LoadTwentyFour(s[..]);
    assert Range(v, 0, 24, 0x4_0000_0000);
    v := Reduce(v);
    var packed := Pack(v);
    forall i | 0 <= i < 32 {
      s[i] := packed[i];
    }
    assert s[..32] == packed;
  }

  // ----- sc_muladd -----

  ghost predicate Factor(a: seq<int64>) {
    |a| <= 12 && forall k | 0 <= k < |a| :: 0 <= a[k] < 0x200_0000
  }

  // The sum of the products a[i] * b[k - i] that sc_muladd writes out for limb k.
  function ProductLimb(a: seq<int64>, b: seq<int64>, k: nat): (r: int64)
    requires Factor(a) && Factor(b)
    ensures 0 <= r as int <= |a| * 0x4_0000_0000_0000
    decreases a
  {
    if a == [] then 0
    else (if k < |b| then Times(a[0], b[k]) else 0) + (if k == 0 then 0 else ProductLimb(a[1..], b, k - 1))
  }

  function Times(x: int64, y: int64): (r: int64)
    requires 0 <= x < 0x200_0000 && 0 <= y < 0x200_0000
    ensures r as int == (x as int) * (y as int)
    ensures 0 <= r as int <= 0x4_0000_0000_0000
  {
    TimesBound(x as int, y as int);
    x * y
  }

  lemma TimesBound(x: int, y: int)
    requires 0 <= x <= 0x200_0000 && 0 <= y <= 0x200_0000
    ensures 0 <= x * y <= 0x4_0000_0000_0000
  {
    assert x * y <= 0x200_0000 * y;
  }

  lemma {:induction false} NoProducts(a: seq<int64>, b: seq<int64>, k: nat)
    requires Factor(a) && Factor(b) && k + 1 >= |a| + |b|
    ensures ProductLimb(a, b, k) == 0
    decreases a
  {
    if a != [] && k > 0 {
      NoProducts(a[1..], b, k - 1);
    }
  }

  ghost function Convolution(a: seq<int64>, b: seq<int64>, n: nat): (r: seq<int64>)
    requires Factor(a) && Factor(b)
    ensures |r| == n && forall k | 0 <= k < n :: r[k] == ProductLimb(a, b, k)
  {
    seq(n, k requires 0 <= k < n => ProductLimb(a, b, k))
  }

  lemma {:induction false} EvalSum(u: seq<int64>, v: seq<int64>, w: seq<int64>)
    requires |u| == |v| == |w|
    requires forall k | 0 <= k < |u| :: u[k] as int == v[k] as int + w[k] as int
    ensures Eval21(u) == Eval21(v) + Eval21(w)
    decreases u
  {
    if u != [] {
      EvalSum(u[1..], v[1..], w[1..]);
    }
  }

  lemma {:induction false} EvalScaledRow(u: seq<int64>, x: int64, b: seq<int64>)
    requires |b| <= |u|
    requires forall k | 0 <= k < |u| :: u[k] as int == if k < |b| then (x as int) * (b[k] as int) else 0
    ensures Eval21(u) == (x as int) * Eval21(b)
    decreases u
  {
    if b == [] {
      EvalZeros(u);
    } else {
      EvalScaledRow(u[1..], x, b[1..]);
      ScaleBy21(x as int, b[0] as int, Eval21(b[1..]));
    }
  }

  lemma ScaleBy21(x: int, y: int, z: int)
    ensures x * y + 0x20_0000 * (x * z) == x * (y + 0x20_0000 * z)
  {
  }

  // The sums represent the product: by rows, each row moved up one limb from the one before it.
  lemma {:induction false} ConvolutionValue(a: seq<int64>, b: seq<int64>, n: nat)
    requires Factor(a) && Factor(b) && n >= |a| + |b|
    ensures Eval21(Convolution(a, b, n)) == Eval21(a) * Eval21(b)
    decreases a
  {
    var c := Convolution(a, b, n);
    if a == [] {
      EvalZeros(c);
    } else {
      var tail := Convolution(a[1..], b, n - 1);
      ConvolutionValue(a[1..], b, n - 1);
      var row := seq(n, k requires 0 <= k < n => FirstRow(a[0], b, k));
      EvalScaledRow(row, a[0], b);
      assert ([0] + tail)[1..] == tail;
      EvalSum(c, row, [0] + tail);
      RowAndTail(a[0] as int, Eval21(a[1..]), Eval21(b));
    }
  }

  ghost function FirstRow(x: int64, b: seq<int64>, k: nat): (r: int64)
    requires 0 <= x < 0x200_0000 && Factor(b)
    ensures r as int == if k < |b| then (x as int) * (b[k] as int) else 0
  {
    if k < |b| then Times(x, b[k]) else 0
  }

  lemma RowAndTail(x: int, y: int, z: int)
    ensures x * z + 0x20_0000 * (y * z) == (x + 0x20_0000 * y) * z
  {
  }

  // s[at..at+32] = (a b + c) mod l
  method ScMulAdd(s: array<byte>, at: nat, a: seq<byte>, b: seq<byte>, c: seq<byte>)
    requires at + 32 <= s.Length && |a| == |b| == |c| == 32
    modifies s
    ensures Le(s[at..at + 32]) == (Le(a) * Le(b) + Le(c)) % L
    ensures s[..at] == old(s[..at]) && s[at + 32..] == old(s[at + 32..])
  {
    hide Le, Eval21, Canonical;
    var v := MulAddLimbs(a, b, c);
    v := CarryAll(v);
    v := Reduce(v);
    var packed := Pack(v);
    forall i | 0 <= i < 32 {
      s[at + i] := packed[i];
    }
    assert s[at..at + 32] == packed;
  }

  method MulAddLimbs(a: seq<byte>, b: seq<byte>, c: seq<byte>) returns (v: seq<int64>)
    requires |a| == |b| == |c| == 32
    ensures |v| == 24 && Range(v, 0, 24, 0x40_0000_0000_0000)
    ensures Eval21(v) == Le(a) * Le(b) + Le(c) && v[23] == 0
  {
    hide Le, Eval21, ProductLimb;
    var x := LoadTwelve(a);
    var y := LoadTwelve(b);
    var z := LoadTwelve(c);
    var zeros := seq(12, i => 0 as int64);
    v := seq(24, k requires 0 <= k < 24 => ProductLimb(x, y, k) + (z + zeros)[k]);
    ConvolutionValue(x, y, 24);
    NoProducts(x, y, 23);
    EvalSum(v, Convolution(x, y, 24), z + zeros);
    EvalTwelve(z);
    EvalTwelve(z + zeros);
    assert z[12..] == [] && (z + zeros)[12..] == zeros;
    EvalEmpty(z[12..]);
    EvalZeros(zeros);
  }

  // Carry out of limbs 0, 2, ..., 22, then 1, 3, ..., 21.
  method CarryAll(s: seq<int64>) returns (t: seq<int64>)
    requires |s| == 24 && Range(s, 0, 23, 0x40_0000_0000_0000) && s[23] == 0
    ensures |t| == 24 && Range(t, 0, 24, 0x4_0000_0000)
    ensures Eval21(t) == Eval21(s)
  {
    hide Eval21;
    t := CarryEvenLow(s);
    t := CarryEvenHigh(t);
    t := CarryOddLow(t);
    t := CarryOddHigh(t);
  }

  ghost predicate Rounded(v: int64) {
    -0x10_0000 <= v < 0x10_0000
  }

  method CarryEvenLow(s: seq<int64>) returns (t: seq<int64>)
    requires |s| == 24 && Range(s, 0, 23, 0x40_0000_0000_0000) && s[23] == 0
    ensures |t| == 24 && Range(t, 0, 13, 0x41_0000_0000_0000)
    ensures Rounded(t[0]) && Rounded(t[2]) && Rounded(t[4]) && Rounded(t[6]) && Rounded(t[8]) && Rounded(t[10])
    ensures Eval21(t) == Eval21(s) && forall k | 12 <= k < 24 :: t[k] == s[k]
  {
    hide Eval21;
    ghost var b := 0x40_0000_0000_0000;
    t := RoundCarry(s, 0, b);
    t := RoundCarry(t, 2, b);
    t := RoundCarry(t, 4, b);
    t := RoundCarry(t, 6, b);
    t := RoundCarry(t, 8, b);
    t := RoundCarry(t, 10, b);
  }

  method CarryEvenHigh(s: seq<int64>) returns (t: seq<int64>)
    requires |s| == 24 && Range(s, 12, 23, 0x40_0000_0000_0000) && s[23] == 0
    ensures |t| == 24 && Range(t, 12, 23, 0x41_0000_0000_0000) && Range(t, 23, 24, 0x3_0000_0000)
    ensures Rounded(t[12]) && Rounded(t[14]) && Rounded(t[16]) && Rounded(t[18]) && Rounded(t[20]) && Rounded(t[22])
    ensures Eval21(t) == Eval21(s) && forall k | 0 <= k < 12 :: t[k] == s[k]
  {
    hide Eval21;
    ghost var b := 0x40_0000_0000_0000;
    t := RoundCarry(s, 12, b);
    t := RoundCarry(t, 14, b);
    t := RoundCarry(t, 16, b);
    t := RoundCarry(t, 18, b);
    t := RoundCarry(t, 20, b);
    t := RoundCarry(t, 22, b);
  }

  method CarryOddLow(s: seq<int64>) returns (t: seq<int64>)
    requires |s| == 24 && Range(s, 0, 12, 0x41_0000_0000_0000)
    requires Rounded(s[0]) && Rounded(s[2]) && Rounded(s[4]) && Rounded(s[6]) && Rounded(s[8]) && Rounded(s[10])
    requires Rounded(s[12])
    ensures |t| == 24 && Range(t, 0, 13, 0x3_0000_0000)
    ensures Eval21(t) == Eval21(s) && forall k | 13 <= k < 24 :: t[k] == s[k]
  {
    hide Eval21;
    ghost var b := 0x41_0000_0000_0000;
    t := RoundCarry(s, 1, b);
    t := RoundCarry(t, 3, b);
    t := RoundCarry(t, 5, b);
    t := RoundCarry(t, 7, b);
    t := RoundCarry(t, 9, b);
    t := RoundCarry(t, 11, b);
  }

  method CarryOddHigh(s: seq<int64>) returns (t: seq<int64>)
    requires |s| == 24 && Range(s, 13, 23, 0x41_0000_0000_0000)
    requires Rounded(s[14]) && Rounded(s[16]) && Rounded(s[18]) && Rounded(s[20]) && Rounded(s[22])
    ensures |t| == 24 && Range(t, 13, 23, 0x3_0000_0000)
    ensures Eval21(t) == Eval21(s) && forall k | 0 <= k < 13 || k == 23 :: t[k] == s[k]
  {
    hide Eval21;
    ghost var b := 0x41_0000_0000_0000;
    t := RoundCarry(s, 13, b);
    t := RoundCarry(t, 15, b);
    t := RoundCarry(t, 17, b);
    t := RoundCarry(t, 19, b);
    t := RoundCarry(t, 21, b);
  }
}
