// ntfe/host.cpp: all the buckets of the host table together. Each core works on one bucket at a time, and what it does
// there leaves the others alone, so every bucket sees a run of the machine in HostTable.
module WholeTable {
  import opened Bytes
  import opened HostTable

  // A core and the bucket host_fetch_bucket gave it.
  datatype At = At(bucket: nat, pc: Pc)

  datatype Table = Table(buckets: seq<Bucket>, cores: seq<At>)

  // The table as one bucket sees it: cores at other buckets look idle.
  ghost function Seen(cores: seq<At>, k: nat): (s: seq<Pc>)
    ensures |s| == |cores|
    ensures forall c :: 0 <= c < |cores| ==> s[c] == if cores[c].bucket == k then cores[c].pc else Idle
  {
    seq(|cores|, c requires 0 <= c < |cores| => if cores[c].bucket == k then cores[c].pc else Idle)
  }

  ghost function View(t: Table, k: nat): State
    requires k < |t.buckets|
  {
    State(t.buckets[k], Seen(t.cores, k))
  }

  ghost predicate TableInvariant(t: Table) {
    && |t.buckets| == BUCKETS
    && (forall k :: 0 <= k < BUCKETS ==> Invariant(View(t, k), k))
    && (forall c :: 0 <= c < |t.cores| ==> t.cores[c].bucket < BUCKETS)
  }

  // The bucket of a core's next step: its own, or that of the address it is about to be called with.
  function Place(at: At, ch: Choice): nat {
    if at.pc.Idle? then BucketOf(ch.op.addr) else at.bucket
  }

  ghost function TableNext(t: Table, c: nat, ch: Choice): Table
    requires TableInvariant(t) && c < |t.cores|
  {
    var k := Place(t.cores[c], ch);
    ViewFacts(t, c, ch);
    var (b', pc') := LocalStep(t.buckets[k], t.cores[c].pc, ch, k);
    Table(t.buckets[k := b'], t.cores[c := At(k, pc')])
  }

  lemma ViewFacts(t: Table, c: nat, ch: Choice)
    requires TableInvariant(t) && c < |t.cores|
    ensures var k := Place(t.cores[c], ch);
            && k < BUCKETS && t.buckets[k].Shaped() && InRange(t.cores[c].pc)
            && View(t, k).cores[c] == t.cores[c].pc
  {
    hide Seen, LocalStep;
    var k := Place(t.cores[c], ch);
    assert Invariant(View(t, k), k);
    assert View(t, k).cores[c] == t.cores[c].pc;
  }

  // The bucket stepped on takes a step of its machine; the others see nothing.
  lemma StepSeen(t: Table, c: nat, ch: Choice, k: nat)
    requires TableInvariant(t) && c < |t.cores| && k < BUCKETS
    ensures |TableNext(t, c, ch).buckets| == BUCKETS
    ensures var v := View(t, k);
            && v.b.Shaped() && InRange(v.cores[c])
            && View(TableNext(t, c, ch), k) == if k == Place(t.cores[c], ch) then Next(v, c, ch, k) else v
  {
    hide LocalStep, Seen, BucketOf;
    ViewFacts(t, c, ch);
    var t', v := TableNext(t, c, ch), View(t, k);
    assert Invariant(v, k);
    var w := View(t', k);
    if k == Place(t.cores[c], ch) {
      assert w.cores == Next(v, c, ch, k).cores;
    } else {
      assert w.cores == v.cores;
    }
  }

  lemma TableStepKeeps(t: Table, c: nat, ch: Choice)
    requires TableInvariant(t) && c < |t.cores|
    ensures TableInvariant(TableNext(t, c, ch))
  {
    hide LocalStep, Seen, BucketOf, Invariant, Next;
    ViewFacts(t, c, ch);
    var t' := TableNext(t, c, ch);
    forall k | 0 <= k < BUCKETS ensures Invariant(View(t', k), k) {
      StepSeen(t, c, ch, k);
      if k == Place(t.cores[c], ch) {
        StepKeeps(View(t, k), c, ch, k);
      }
    }
  }

  function Zeroed(n: nat): Table {
    Table(seq(BUCKETS, _ => Initial(0).b), seq(n, _ => At(0, Idle)))
  }

  lemma ZeroedInvariant(n: nat)
    ensures TableInvariant(Zeroed(n))
  {
    hide BucketOf, Invariant;
    forall k | 0 <= k < BUCKETS ensures Invariant(View(Zeroed(n), k), k) {
      InitialInvariant(n, k);
      assert View(Zeroed(n), k).cores == Initial(n).cores;
    }
  }

  datatype Turn = Turn(core: nat, choice: Choice)

  ghost predicate Valid(n: nat, turns: seq<Turn>) {
    forall i :: 0 <= i < |turns| ==> turns[i].core < n
  }

  // Any run by any number of cores.
  ghost function TableRun(t: Table, turns: seq<Turn>): (u: Table)
    requires TableInvariant(t) && Valid(|t.cores|, turns)
    ensures TableInvariant(u) && |u.cores| == |t.cores|
    decreases |turns|
  {
    if turns == [] then t
    else
      var prefix := TableRun(t, turns[..|turns| - 1]);
      var last := turns[|turns| - 1];
      TableStepKeeps(prefix, last.core, last.choice);
      TableNext(prefix, last.core, last.choice)
  }

  // The reachable tables: those after a run from the zeroed table.
  ghost function After(n: nat, turns: seq<Turn>): (t: Table)
    requires Valid(n, turns)
    ensures TableInvariant(t) && |t.cores| == n
  {
    ZeroedInvariant(n);
    TableRun(Zeroed(n), turns)
  }

  // In every reachable state no address is in two entries of the whole table, and each is in its hash's bucket.
  lemma {:induction false} AddressesUnique(n: nat, turns: seq<Turn>, k: nat, i: nat, l: nat, j: nat)
    requires Valid(n, turns) && k < BUCKETS && l < BUCKETS && i < 8 && j < 8
    ensures var t := After(n, turns);
            && t.buckets[k].Shaped() && t.buckets[l].Shaped()
            && (t.buckets[k].keys[i] == t.buckets[l].keys[j] != 0 ==>
                  k == l == BucketOf(t.buckets[k].keys[i]) && i == j)
  {
    hide BucketOf, After, Seen, Invariant;
    var t := After(n, turns);
    assert Invariant(View(t, k), k) && Invariant(View(t, l), l);
    SoundAlways(View(t, k), k);
    SoundAlways(View(t, l), l);
  }

  // In every reachable state two cores between lock and release are at different buckets, and their buckets are locked.
  lemma {:induction false} HoldersApart(n: nat, turns: seq<Turn>, c: nat, d: nat)
    requires Valid(n, turns) && c < n && d < n && c != d
    ensures var t := After(n, turns);
            Holding(t.cores[c].pc) ==>
              var k := t.cores[c].bucket;
              && k < BUCKETS && t.buckets[k].Shaped() && t.buckets[k].Locked()
              && (Holding(t.cores[d].pc) ==> k != t.cores[d].bucket)
  {
    hide BucketOf, After, Seen, Consistent;
    var t := After(n, turns);
    if Holding(t.cores[c].pc) {
      var k := t.cores[c].bucket;
      var v := View(t, k);
      assert Invariant(v, k);
      assert v.cores[c] == t.cores[c].pc;
      ConsistentShape(v.b, v.cores[c], k);
      if t.cores[d].bucket == k {
        assert v.cores[d] == t.cores[d].pc;
      }
    }
  }

  // ----- authorized addresses -----

  // Entry i of the address's bucket holds it, with at least that priority.
  ghost predicate AuthorizedAt(t: Table, i: nat, addr: nat, pri: nat)
    requires |t.buckets| == BUCKETS
  {
    var b := t.buckets[BucketOf(addr)];
    b.Shaped() && i < 8 && b.keys[i] == addr && b.words[i].pri >= pri
  }

  lemma StepAuthorized(t: Table, c: nat, ch: Choice, i: nat, addr: nat, pri: nat)
    requires TableInvariant(t) && c < |t.cores| && pri > NONE && AuthorizedAt(t, i, addr, pri)
    ensures TableInvariant(TableNext(t, c, ch)) && AuthorizedAt(TableNext(t, c, ch), i, addr, pri)
  {
    hide BucketOf, LocalStep, Seen, Invariant, TableNext, OneField;
    var k := BucketOf(addr);
    TableStepKeeps(t, c, ch);
    StepSeen(t, c, ch, k);
    if k == Place(t.cores[c], ch) {
      assert Invariant(View(t, k), k);
      StepKeeps(View(t, k), c, ch, k);
      SoundAlways(View(TableNext(t, c, ch), k), k);
    }
  }

  // Once authorized, an address is never evicted, its entry does not move and its priority never drops, whatever the
  // cores do anywhere in the table.
  lemma {:induction false} AuthorizedForever(t: Table, turns: seq<Turn>, i: nat, addr: nat, pri: nat)
    requires TableInvariant(t) && Valid(|t.cores|, turns) && pri > NONE && AuthorizedAt(t, i, addr, pri)
    ensures AuthorizedAt(TableRun(t, turns), i, addr, pri)
    decreases |turns|
  {
    hide AuthorizedAt, TableNext, Invariant, View;
    if turns != [] {
      var prefix, last := turns[..|turns| - 1], turns[|turns| - 1];
      AuthorizedForever(t, prefix, i, addr, pri);
      StepAuthorized(TableRun(t, prefix), last.core, last.choice, i, addr, pri);
    }
  }

  // host_lookup takes no lock: it probes the keys in one state and reads the priority in a later one, with any steps
  // of any cores before and between. An address that was authorized in some reachable state it finds, at no less than
  // that priority.
  lemma {:induction false} LookupSeesAuthorized(n: nat, start: seq<Turn>, before: seq<Turn>, between: seq<Turn>,
                                                i: nat, addr: nat, pri: nat)
    requires Valid(n, start) && Valid(n, before) && Valid(n, between)
    requires 0 < addr < WORD && pri > NONE && AuthorizedAt(After(n, start), i, addr, pri)
    ensures var t := TableRun(After(n, start), before);
            var u := TableRun(t, between);
            && t.buckets[BucketOf(addr)].Shaped()
            && Probe(t.buckets[BucketOf(addr)].keys, addr) == i
            && AuthorizedAt(u, i, addr, pri)
  {
    hide TableRun, After, BucketOf, Invariant, Probe, Seen;
    var t := TableRun(After(n, start), before);
    AuthorizedForever(After(n, start), before, i, addr, pri);
    AuthorizedForever(t, between, i, addr, pri);
    var k := BucketOf(addr);
    assert Invariant(View(t, k), k);
    SoundAlways(View(t, k), k);
    assert t.buckets[k].keys[i] in t.buckets[k].keys;
  }
}
