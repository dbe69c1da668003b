// ntfe/ntfe.cpp and ntfe/helper.cpp: traffic policing by token buckets in saturating 32-bit arithmetic.
module TokenBucket {
  import opened Bytes

  type u32 = n: nat | n < 0x1_0000_0000

  // ----- satsub32, satadd32, satmul32 -----

  function Min(a: int, b: int): int {
    if a <= b then a else b
  }

  function Max(a: int, b: int): int {
    if a >= b then a else b
  }

  // All bits set when the condition holds: -(condition)
  function AllOnes(condition: bool): u32 {
    if condition then 0xffff_ffff else 0
  }

  lemma {:induction false} OrOnes(a: nat, k: nat)
    requires a < Exp2(k)
    ensures BitOr(a, Exp2(k) - 1) == Exp2(k) - 1
    decreases k
  {
    if k > 0 {
      OrOnes(a / 2, k - 1);
      assert (Exp2(k) - 1) / 2 == Exp2(k - 1) - 1 && (Exp2(k) - 1) % 2 == 1;
    }
  }

  lemma {:induction false} OrNothing(a: nat)
    ensures BitOr(a, 0) == a
    decreases a
  {
    if a > 0 {
      OrNothing(a / 2);
    }
  }

  lemma {:induction false} Masks(a: u32, condition: bool)
    ensures BitOr(a, AllOnes(condition)) == if condition then 0xffff_ffff else a
    ensures BitAnd(AllOnes(condition), a) == if condition then a else 0
  {
    hide BitAnd, BitOr, Exp2;
    ExpSmall();
    OrOnes(a, 32);
    OrNothing(a);
    BitAndMask(a, 32);
    BitAndZero(a);
  }

  method SatSub32(a: u32, b: u32) returns (r: u32)
    ensures r as int == Max(a - b, 0)
  {
    hide BitAnd;
    r := (a as int - b) % WORD;
    Masks(r, r <= a);
    r := BitAnd(AllOnes(r <= a), r);
  }

  method SatAdd32(a: u32, b: u32) returns (r: u32)
    ensures r as int == Min(a + b, 0xffff_ffff)
  {
    hide BitOr;
    r := (a as int + b) % WORD;
    Masks(r, r < a);
    r := BitOr(r, AllOnes(r < a));
  }

  method SatMul32(a: u32, b: u32) returns (r: u32)
    ensures r as int == Min(a as int * b as int, 0xffff_ffff)
  {
    hide BitOr;
    ghost var product: int := a as int * b as int;
    assert product >= 0;
    var wide: nat := a as int * b as int;
    var low: u32 := wide % WORD;
    Masks(low, wide / WORD != 0);
    HighHalf(wide);
    r := BitOr(low, AllOnes(wide / WORD != 0));
  }

  lemma HighHalf(wide: nat)
    ensures wide / WORD != 0 <==> wide >= WORD
  {
  }

  // ----- one bucket -----

  datatype Meter = Meter(rate: u32, capacity: u32, level: u32)

  // The bucket's contents: tokens, and when they were last replenished, in milliseconds modulo 2^32.
  datatype Contents = Contents(tokens: u32, last: u32)

  // Milliseconds since the last replenishment, as the 32-bit subtraction sees them.
  function Elapsed(last: u32, now: u32): u32 {
    (now as int - last) % WORD
  }

  // The unbounded refill: capacity caps it, nothing else does.
  function Refill(tokens: nat, m: Meter, dt: nat): nat {
    if dt == 0 then tokens else Min(m.capacity, tokens + m.rate * dt)
  }

  function Charged(b: Contents, m: Meter, now: u32, cost: u32): (r: (Contents, bool))
    ensures r.0.last == now
  {
    var filled := Refill(b.tokens, m, Elapsed(b.last, now));
    FillRange(b.tokens, m, Elapsed(b.last, now));
    var left := Max(filled - cost, 0);
    (Contents(left, now), left > m.level)
  }

  lemma FillRange(tokens: u32, m: Meter, dt: nat)
    ensures 0 <= Refill(tokens, m, dt) < WORD
    ensures dt > 0 || tokens <= m.capacity ==> Refill(tokens, m, dt) <= m.capacity
    ensures Refill(tokens, m, dt) <= tokens + m.rate * dt
  {
    assert m.rate * dt >= 0;
  }

  class TokenBucket {
    var tokens: u32
    var last: u32

    function View(): Contents
      reads this
    {
      Contents(tokens, last)
    }

    // token_bucket_charge
    method Charge(m: Meter, now: u32, cost: u32) returns (passed: bool)
      modifies this
      ensures (View(), passed) == Charged(old(View()), m, now, cost)
    {
      var dt: u32 := (now as int - last) % WORD;
      if dt != 0 {
        var earned := SatMul32(dt, m.rate);
        var sum := SatAdd32(tokens, earned);
        SaturationHarmless(tokens, m, dt, earned, sum);
        tokens := Min(m.capacity, sum);
        last := now;
      } else {
        SameInstant(now, last);
      }
      tokens := SatSub32(tokens, cost);
      passed := tokens > m.level;
    }
  }

  lemma SameInstant(now: u32, last: u32)
    requires (now as int - last) % WORD == 0
    ensures now == last
  {
  }

  // Saturating at 2^32 - 1 first makes no difference below the capacity.
  lemma SaturationHarmless(tokens: u32, m: Meter, dt: u32, earned: u32, sum: u32)
    requires dt > 0 && earned as int == Min(dt as int * m.rate as int, 0xffff_ffff)
    requires sum as int == Min(tokens + earned, 0xffff_ffff)
    ensures Min(m.capacity, sum) == Refill(tokens, m, dt)
  {
    assert dt as int * m.rate as int == m.rate * dt;
  }

  // ----- runs -----

  datatype Use = Use(now: u32, cost: u32)

  ghost function Final(b: Contents, m: Meter, uses: seq<Use>): Contents
    decreases |uses|
  {
    if uses == [] then b else Final(Charged(b, m, uses[0].now, uses[0].cost).0, m, uses[1..])
  }

  ghost function Accepted(b: Contents, m: Meter, uses: seq<Use>): nat
    decreases |uses|
  {
    if uses == [] then 0
    else
      var (b', passed) := Charged(b, m, uses[0].now, uses[0].cost);
      (if passed then uses[0].cost else 0) + Accepted(b', m, uses[1..])
  }

  ghost function TotalElapsed(last: u32, uses: seq<Use>): nat
    decreases |uses|
  {
    if uses == [] then 0 else Elapsed(last, uses[0].now) + TotalElapsed(uses[0].now, uses[1..])
  }

  // A use that passes leaves exactly its cost less than the refill.
  lemma PassPaysInFull(b: Contents, m: Meter, now: u32, cost: u32)
    ensures var (b', passed) := Charged(b, m, now, cost);
            var filled := Refill(b.tokens, m, Elapsed(b.last, now));
            && (passed <==> filled > cost + m.level)
            && (passed ==> b'.tokens == filled - cost)
            && b'.tokens <= filled
  {
  }

  // Any charge, passed or refused, takes its cost, down to nothing, from what the refill made.
  lemma ChargeLeaves(b: Contents, m: Meter, now: u32, cost: u32)
    ensures var (b', passed) := Charged(b, m, now, cost);
            && (now == b.last ==> b'.tokens as int == Max(b.tokens - cost, 0))
            && (now != b.last ==>
                  b'.tokens as int == Max(Min(m.capacity, b.tokens + m.rate * ((now - b.last) % WORD)) - cost, 0))
            && b'.last == now && (passed <==> b'.tokens > m.level)
  {
    NonzeroElapsed(b.last, now);
  }

  ghost function TotalCost(uses: seq<Use>): nat
    decreases |uses|
  {
    if uses == [] then 0 else uses[0].cost + TotalCost(uses[1..])
  }

  // Within one millisecond every cost is taken, whatever the verdicts.
  lemma {:induction false} SameInstantDrains(b: Contents, m: Meter, uses: seq<Use>)
    requires forall i :: 0 <= i < |uses| ==> uses[i].now == b.last
    ensures Final(b, m, uses).tokens as int == Max(b.tokens - TotalCost(uses), 0)
    decreases |uses|
  {
    if uses != [] {
      ChargeLeaves(b, m, uses[0].now, uses[0].cost);
      SameInstantDrains(Charged(b, m, uses[0].now, uses[0].cost).0, m, uses[1..]);
    }
  }

  // The bucket never overflows its capacity and never runs dry.
  ghost predicate Slack(b: Contents, m: Meter, uses: seq<Use>)
    decreases |uses|
  {
    uses == [] ||
    (var dt := Elapsed(b.last, uses[0].now);
     && (dt > 0 ==> b.tokens + m.rate * dt <= m.capacity)
     && uses[0].cost <= b.tokens + m.rate * dt
     && Slack(Charged(b, m, uses[0].now, uses[0].cost).0, m, uses[1..]))
  }

  // Then the accounts balance exactly.
  lemma {:induction false} ExactBalance(b: Contents, m: Meter, uses: seq<Use>)
    requires Slack(b, m, uses)
    ensures Final(b, m, uses).tokens + TotalCost(uses) == b.tokens + m.rate * TotalElapsed(b.last, uses)
    decreases |uses|
  {
    hide Elapsed;
    if uses == [] {
      assert m.rate * 0 == 0;
    } else {
      var now, cost := uses[0].now, uses[0].cost;
      var dt := Elapsed(b.last, now);
      ExactBalance(Charged(b, m, now, cost).0, m, uses[1..]);
      SplitRate(m.rate, dt, TotalElapsed(now, uses[1..]));
      assert m.rate * 0 == 0;
    }
  }

  // Over any run, what was accepted and what is left were there at the start or earned since.
  lemma {:induction false} Conservation(b: Contents, m: Meter, uses: seq<Use>)
    ensures Accepted(b, m, uses) + Final(b, m, uses).tokens <= b.tokens + m.rate * TotalElapsed(b.last, uses)
    decreases |uses|
  {
    hide Refill, Elapsed;
    if uses == [] {
      assert m.rate * 0 == 0;
    } else {
      var now, cost := uses[0].now, uses[0].cost;
      var (b', passed) := Charged(b, m, now, cost);
      var dt := Elapsed(b.last, now);
      FillRange(b.tokens, m, dt);
      PassPaysInFull(b, m, now, cost);
      Conservation(b', m, uses[1..]);
      SplitRate(m.rate, dt, TotalElapsed(now, uses[1..]));
    }
  }

  lemma SplitRate(rate: nat, d: nat, e: nat)
    ensures rate * (d + e) == rate * d + rate * e
  {
  }

  // From any point where the bucket is within its capacity, no window accepts more than the capacity and what the
  // window earns.
  lemma {:induction false} WindowBound(b: Contents, m: Meter, uses: seq<Use>)
    requires b.tokens <= m.capacity
    ensures Accepted(b, m, uses) <= m.capacity + m.rate * TotalElapsed(b.last, uses)
  {
    Conservation(b, m, uses);
  }

  // The capacity is never exceeded once it holds, and it holds after any refill.
  lemma {:induction false} CapacityHolds(b: Contents, m: Meter, uses: seq<Use>)
    requires b.tokens <= m.capacity || exists i :: 0 <= i < |uses| && uses[i].now != b.last
    ensures Final(b, m, uses).tokens <= m.capacity
    decreases |uses|
  {
    if uses != [] {
      var now := uses[0].now;
      var (b', _) := Charged(b, m, now, uses[0].cost);
      FillRange(b.tokens, m, Elapsed(b.last, now));
      if now == b.last && b.tokens > m.capacity {
        var i :| 0 <= i < |uses| && uses[i].now != b.last;
        assert uses[1..][i - 1].now != b'.last;
      } else {
        NonzeroElapsed(b.last, now);
        assert b'.tokens <= m.capacity;
      }
      CapacityHolds(b', m, uses[1..]);
    }
  }

  lemma NonzeroElapsed(last: u32, now: u32)
    ensures Elapsed(last, now) == 0 <==> now == last
  {
  }

  // True times that never go back, with gaps below 2^32 milliseconds, add up to the time that passed.
  ghost predicate Steady(start: nat, times: seq<nat>)
    decreases |times|
  {
    times == [] || (start <= times[0] < start + WORD && Steady(times[0], times[1..]))
  }

  lemma {:induction false} ElapsedIsTime(start: nat, times: seq<nat>, uses: seq<Use>)
    requires Steady(start, times) && |times| == |uses|
    requires forall i :: 0 <= i < |uses| ==> uses[i].now == times[i] % WORD
    ensures TotalElapsed(start % WORD, uses) == if times == [] then 0 else times[|times| - 1] - start
    decreases |uses|
  {
    hide Elapsed;
    if uses != [] {
      var t := times[0];
      WrappedGap(start, t);
      ElapsedIsTime(t, times[1..], uses[1..]);
    }
  }

  lemma WrappedGap(start: nat, t: nat)
    requires start <= t < start + WORD
    ensures Elapsed(start % WORD, t % WORD) == t - start
  {
    var q, r := t / WORD - start / WORD, t % WORD - start % WORD;
    assert t - start == WORD * q + r;
    assert r < WORD && r + WORD > 0;
    assert 0 <= q <= 1;
  }

  // Cutting an idle period into several refills changes nothing.
  lemma RefillSplits(tokens: nat, m: Meter, d: nat, e: nat)
    ensures Refill(Refill(tokens, m, d), m, e) == Refill(tokens, m, d + e)
  {
    SplitRate(m.rate, d, e);
    assert m.rate * d >= 0 && m.rate * e >= 0;
  }

  // Nor does a charge of nothing on the way to a later one, unless the two gaps together wrap around.
  lemma IdleChargeChangesNothing(b: Contents, m: Meter, t1: u32, t2: u32, cost: u32)
    requires Elapsed(b.last, t1) + Elapsed(t1, t2) < WORD
    ensures Charged(Charged(b, m, t1, 0).0, m, t2, cost) == Charged(b, m, t2, cost)
  {
    hide Refill, Elapsed;
    var d, e := Elapsed(b.last, t1), Elapsed(t1, t2);
    GapsAdd(b.last, t1, t2);
    FillRange(b.tokens, m, d);
    assert Charged(b, m, t1, 0).0 == Contents(Refill(b.tokens, m, d), t1);
    RefillSplits(b.tokens, m, d, e);
  }

  lemma GapsAdd(last: u32, t1: u32, t2: u32)
    requires Elapsed(last, t1) + Elapsed(t1, t2) < WORD
    ensures Elapsed(last, t1) + Elapsed(t1, t2) == Elapsed(last, t2)
  {
  }

  // ----- a packet -----

  datatype Rule = Rule(byteScale: nat, packetScale: nat, byteMeter: nat, packetMeter: nat)

  // The four buckets of a host, and the effect of charging one of them unless the cost is zero.
  ghost function ChargeOne(buckets: seq<Contents>, meters: seq<Meter>, i: nat, now: u32, cost: u32): (seq<Contents>,
      bool)
    requires |buckets| == |meters| == 4 && i < 4
  {
    if cost == 0 then (buckets, true)
    else
      var (b, passed) := Charged(buckets[i], meters[i], now, cost);
      (buckets[i := b], passed)
  }

  // A packet conforms when each meter with a cost has more than the cost and its level; both are charged in any case.
  lemma PacketLaw(buckets: seq<Contents>, meters: seq<Meter>, i: nat, j: nat, now: u32, bytes: u32, packet: u32)
    requires |buckets| == |meters| == 4 && i < 4 && j < 4 && i != j
    ensures var (mid, first) := ChargeOne(buckets, meters, i, now, bytes);
            var (end, second) := ChargeOne(mid, meters, j, now, packet);
            && (first && second <==>
                  && (bytes == 0 || Filled(buckets[i], meters[i], now) > bytes + meters[i].level)
                  && (packet == 0 || Filled(buckets[j], meters[j], now) > packet + meters[j].level))
            && (bytes > 0 ==> end[i] == Contents(Max(Filled(buckets[i], meters[i], now) - bytes, 0), now))
            && (packet > 0 ==> end[j] == Contents(Max(Filled(buckets[j], meters[j], now) - packet, 0), now))
            && (bytes == 0 ==> end[i] == buckets[i]) && (packet == 0 ==> end[j] == buckets[j])
            && forall k :: 0 <= k < 4 && k != i && k != j ==> end[k] == buckets[k]
  {
    FilledRange(buckets[i], meters[i], now);
    FilledRange(buckets[j], meters[j], now);
  }

  // The tokens a refill at a time makes available.
  ghost function Filled(b: Contents, m: Meter, now: u32): int {
    if now == b.last then b.tokens else Min(m.capacity, b.tokens + m.rate * ((now - b.last) % WORD))
  }

  lemma FilledRange(b: Contents, m: Meter, now: u32)
    ensures 0 <= Filled(b, m, now) < WORD && Filled(b, m, now) == Refill(b.tokens, m, Elapsed(b.last, now))
  {
    NonzeroElapsed(b.last, now);
    FillRange(b.tokens, m, Elapsed(b.last, now));
  }

  class HostState {
    const tb: array<TokenBucket>

    ghost predicate Valid()
      reads tb
    {
      tb.Length == 4 && forall i, j :: 0 <= i < j < 4 ==> tb[i] != tb[j]
    }

    ghost function Buckets(): (s: seq<Contents>)
      requires Valid()
      reads tb, tb[..]
      ensures |s| == 4
    {
      [tb[0].View(), tb[1].View(), tb[2].View(), tb[3].View()]
    }

    constructor ()
      ensures Valid() && fresh(tb) && fresh(tb[..])
    {
      var b0 := new TokenBucket;
      var b1 := new TokenBucket;
      var b2 := new TokenBucket;
      var b3 := new TokenBucket;
      tb := new TokenBucket[4][b0, b1, b2, b3];
    }

    method ChargeMeter(i: nat, meters: seq<Meter>, now: u32, cost: u32) returns (passed: bool)
      requires Valid() && |meters| == 4 && i < 4
      modifies tb[..]
      ensures Valid() && (Buckets(), passed) == ChargeOne(old(Buckets()), meters, i, now, cost)
    {
      if cost == 0 {
        passed := true;
      } else {
        ghost var before := Buckets();
        passed := tb[i].Charge(meters[i], now, cost);
        assert forall j :: 0 <= j < 4 && j != i ==> tb[j].View() == old(tb[j].View());
        assert Buckets() == before[i := tb[i].View()];
      }
    }

    // host_charge_packet: 0 when every charged bucket conforms. The lock around it is host->lock.
    method ChargePacket(rl: Rule, meters: seq<Meter>, bytes: nat, now: u32) returns (result: nat)
      requires Valid() && |meters| == 4 && rl.byteMeter < 4 && rl.packetMeter < 4
      requires bytes < 0x1_0000 && rl.byteScale < 0x1_0000 && rl.packetScale < 0x1_0000
      modifies tb[..]
      ensures Valid()
      ensures bytes * rl.byteScale < WORD
      ensures var (mid, first) := ChargeOne(old(Buckets()), meters, rl.byteMeter, now, bytes * rl.byteScale);
              var (end, second) := ChargeOne(mid, meters, rl.packetMeter, now, rl.packetScale);
              Buckets() == end && (result == 0 <==> first && second)
    {
      ProductFits(bytes, rl.byteScale);
      var byteCost := SatMul32(bytes, rl.byteScale);
      var first := ChargeMeter(rl.byteMeter, meters, now, byteCost);
      var second := ChargeMeter(rl.packetMeter, meters, now, rl.packetScale);
      result := 2 - (if first then 1 else 0) - (if second then 1 else 0);
    }
  }

  lemma ProductFits(a: nat, b: nat)
    requires a < 0x1_0000 && b < 0x1_0000
    ensures 0 <= a * b < WORD
  {
    MulMonotone(a, 0xffff, b);
  }

  lemma MulMonotone(a: int, c: int, b: int)
    requires 0 <= a <= c && 0 <= b
    ensures 0 <= a * b <= c * b
  {
  }
}
