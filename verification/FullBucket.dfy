// ntfe/host.cpp: what happens when all eight entries of a bucket are authorized. Nine addresses that share a bucket
// exist, eight of them can be authorized one after the other, and then no authorization of the ninth succeeds.
module FullBucket {
  import opened Bytes
  import opened FieldSelect
  import opened HostTable
  import opened HostCalls

  // ----- nine addresses of bucket 0 -----

  function Address(t: nat): nat {
    t * 0x6f77ea4
  }

  // x ^ (x >> 16) loses its low bits when they repeat 16 bits higher.
  lemma {:induction false} XorCancelsLow(v: nat, u: nat, k: nat)
    requires v < Exp2(k)
    ensures BitXor(v + Exp2(k) * u, v) == Exp2(k) * u
    decreases k
  {
    if k == 0 {
      XorZero(u);
    } else {
      var c := Exp2(k - 1) * u;
      assert Exp2(k) * u == 2 * c;
      assert (v + 2 * c) % 2 == v % 2 && (v + 2 * c) / 2 == v / 2 + c;
      XorCancelsLow(v / 2, u, k - 1);
      XorHalves(v + 2 * c, v);
    }
  }

  lemma SharedBucket(t: nat)
    requires 1 <= t <= 9
    ensures 0 < Address(t) < WORD && BucketOf(Address(t)) == 0
  {
    hide BitXor, Exp2;
    HashOf(t);
    ExpSmall();
    ExpAdd(8, 8);
    ExpAdd(16, 2);
    XorCancelsLow(4 * t, t, 18);
  }

  // The multiplier of the hash takes t times the address to t at bit 2 and again at bit 18.
  lemma HashOf(t: nat)
    requires 1 <= t <= 9
    ensures Address(t) * 0x32583499 % WORD == 4 * t + 0x4_0000 * t
    ensures (4 * t + 0x4_0000 * t) / 0x1_0000 == 4 * t
  {
    var h, turns := 4 * t + 0x4_0000 * t, 0x15ebd3e * t;
    assert Address(t) * 0x32583499 == turns * WORD + h;
    DivModUnique(Address(t) * 0x32583499, WORD, turns, h);
    DivModUnique(h, 0x1_0000, 4 * t, 4 * t);
  }

  // ----- authorizing them one after the other -----

  function Turn(t: nat): Choice {
    Choice(Authorize(Address(t), STATIC), 0, 0)
  }

  // The bucket with the first k of the addresses authorized.
  function Filled(k: nat): Bucket
    requires k <= 8
  {
    Bucket(seq(8, j requires 0 <= j < 8 => if j < k then Address(j + 1) else 0),
           seq(8, j requires 0 <= j < 8 => Word(0, if j < k then STATIC else NONE, 0, j == 1 && k == 8)))
  }

  lemma NotYet(k: nat)
    requires k <= 8
    ensures Filled(k).Shaped() && !Filled(k).Locked() && Probe(Filled(k).keys, Address(k + 1)) < 0
    ensures Filled(k).Exhausted() <==> k == 8
  {
    hide Probe;
  }

  lemma AuthorizeOne(k: nat)
    requires k < 8 && Filled(k).Shaped()
    ensures Atomic(Filled(k), Turn(k + 1).op, 0, 0) == Filled(k + 1)
  {
    hide Probe, Address, Victim;
    NotYet(k);
    var b, t := Filled(k), Atomic(Filled(k), Turn(k + 1).op, 0, 0);
    FirstFreeEntry(k);
    assert t.keys == Filled(k + 1).keys;
    assert t.words == Filled(k + 1).words;
  }

  lemma FirstFreeEntry(k: nat)
    requires k < 8
    ensures Probe(Filled(k).keys, 0) == k
  {
    hide Probe;
    assert Filled(k).keys[k] == 0 && Filled(k).keys[k] in Filled(k).keys;
  }

  ghost predicate Ready(n: nat, events: seq<Event>, k: nat) {
    k <= 8 && Valid(n, events) && After(n, events, 0) == State(Filled(k), seq(n, _ => Idle))
  }

  lemma {:induction false} AuthorizeMany(n: nat, k: nat) returns (events: seq<Event>)
    requires n > 0 && k <= 8
    ensures Ready(n, events, k)
    decreases k
  {
    hide Address, Atomic, BucketOf, Filled, After, Ready;
    if k == 0 {
      events := ReadyAtStart(n);
    } else {
      events := AuthorizeMany(n, k - 1);
      events := ReadyNext(n, events, k - 1);
    }
  }

  lemma ReadyAtStart(n: nat) returns (events: seq<Event>)
    ensures Ready(n, events, 0)
  {
    hide Address;
    events := [];
    assert Initial(n).b.keys == Filled(0).keys && Initial(n).b.words == Filled(0).words;
  }

  lemma ReadyNext(n: nat, events: seq<Event>, k: nat) returns (more: seq<Event>)
    requires n > 0 && k < 8 && Ready(n, events, k)
    ensures Ready(n, more, k + 1)
  {
    hide Address, Atomic, BucketOf, Filled, After;
    NotYet(k);
    SharedBucket(k + 1);
    more := CallCompletes(n, events, 0, 0, Turn(k + 1));
    AuthorizeOne(k);
  }

  // A run of any number of cores in which host_insert_authorized fails: its core is about to release the lock with -1.
  lemma AuthorizationFails(n: nat) returns (events: seq<Event>)
    requires n > 0
    ensures Valid(n, events)
    ensures var pc := After(n, events, 0).cores[0];
            pc.ReleaseWrite? && pc.op.Authorize? && pc.result == -1
  {
    hide Address, Filled, After, Probe, Victim, BucketOf, LocalStep, Score, Invariant;
    events := AuthorizeMany(n, 8);
    NotYet(8);
    SharedBucket(9);
    var x := Solo(n, events, 0, 0, Turn(9), seq(n, _ => Idle));
    assert x.rest[0 := Idle] == x.rest;
    events := Enter(x, events, Filled(8));
    AllTaken(Locked(Filled(8)));
    events := Reserve(x, events, Locked(Filled(8)));
    events := LastStep(x, events, Locked(Filled(8)));
  }

  lemma LastStep(x: Solo, events: seq<Event>, b: Bucket) returns (more: seq<Event>)
    requires At(x, events, b, ReleaseRead(x.ch.op, -1)) && b.Shaped()
    ensures At(x, more, b, ReleaseWrite(x.ch.op, -1, b.words[0]))
  {
    hide At, Probe, Victim;
    more := Step(x, events, b, ReleaseRead(x.ch.op, -1));
  }

  lemma AllTaken(b: Bucket)
    requires Filled(8).Shaped() && b == Locked(Filled(8))
    ensures b.Exhausted() && b.keys == Filled(8).keys && b.words[Victim(b.words, 0)].pri > NONE
  {
    hide Address, Victim, Score;
    assert forall i :: 0 <= i < 8 ==> b.words[i].pri == STATIC;
  }
}
