// ntfe/host.cpp: what a whole call of host_insert or host_insert_authorized does. From any reachable state in which no
// core has the bucket, a core that runs alone completes its call, and the call acts on the bucket as one step.
module HostCalls {
  import opened Bytes
  import opened HostTable

  // ----- the call as one step -----

  // A new entry; the borrowed top bit stays.
  function NewEntry(b: Bucket, i: nat, op: Op, tsec: nat, ptr: nat): Bucket
    requires b.Shaped() && i < 8
  {
    Bucket(b.keys[i := op.addr],
           b.words[i := Word(tsec % AGES, Priority(op), if op.Insert? then ptr % PTRS else 0, b.words[i].top)])
  }

  function MarkFull(b: Bucket): Bucket
    requires b.Shaped()
  {
    Put(b, 1, b.words[1].(top := true))
  }

  function Atomic(b: Bucket, op: Op, tsec: nat, ptr: nat): Bucket
    requires b.Shaped()
  {
    var i := Probe(b.keys, op.addr);
    if i >= 0 then
      if op.Authorize? && b.words[i].pri < op.priority then Put(b, i, b.words[i].(pri := op.priority)) else b
    else if !b.Exhausted() then
      var free := Probe(b.keys, 0);
      if free < 0 then b else NewEntry(if free == 7 then MarkFull(b) else b, free, op, tsec, ptr)
    else
      var victim := Victim(b.words, tsec % AGES);
      if b.words[victim].pri > NONE then b else NewEntry(b, victim, op, tsec, ptr)
  }

  // ----- a core alone -----

  // Core c of n, in a bucket, makes the call ch after the run start; the other cores stay where they are in rest.
  datatype Solo = Solo(n: nat, start: seq<Event>, c: nat, bucket: nat, ch: Choice, rest: seq<Pc>)

  ghost predicate Alone(start: seq<Event>, events: seq<Event>, c: nat) {
    && |start| <= |events| && events[..|start|] == start
    && forall k :: |start| <= k < |events| ==> events[k].core == c
  }

  ghost predicate At(x: Solo, events: seq<Event>, b: Bucket, pc: Pc) {
    && x.c < x.n && |x.rest| == x.n && Valid(x.n, events) && Alone(x.start, events, x.c)
    && After(x.n, events, x.bucket) == State(b, x.rest[x.c := pc])
  }

  lemma Step(x: Solo, events: seq<Event>, b: Bucket, pc: Pc) returns (more: seq<Event>)
    requires At(x, events, b, pc)
    ensures b.Shaped() && InRange(pc)
    ensures var (b', pc') := LocalStep(b, pc, x.ch, x.bucket);
            At(x, more, b', pc')
  {
    hide LocalStep, Invariant;
    more := events + [Event(x.c, x.ch)];
    assert more[..|events|] == events;
    InvariantShape(After(x.n, events, x.bucket), x.bucket);
    assert After(x.n, events, x.bucket).cores[x.c] == pc;
    var (b', pc') := LocalStep(b, pc, x.ch, x.bucket);
    assert x.rest[x.c := pc][x.c := pc'] == x.rest[x.c := pc'];
  }

  lemma InvariantShape(s: State, bucket: nat)
    requires Invariant(s, bucket)
    ensures s.b.Shaped() && forall c :: 0 <= c < |s.cores| ==> InRange(s.cores[c])
  {
  }

  function Locked(b: Bucket): Bucket
    requires b.Shaped()
  {
    Put(b, 0, b.words[0].(top := true))
  }

  // The lock is free: the core tests it, takes it and gets to the probe.
  lemma Enter(x: Solo, events: seq<Event>, b: Bucket) returns (more: seq<Event>)
    requires At(x, events, b, Idle) && b.Shaped() && !b.Locked() && Callable(x.ch.op, x.bucket)
    ensures At(x, more, Locked(b), Probing(x.ch.op))
  {
    hide At, BucketOf;
    var op := x.ch.op;
    more := Step(x, events, b, Idle);
    more := Step(x, more, b, Testing(op));
    more := Step(x, more, b, Spinning(op));
  }

  lemma Leave(x: Solo, events: seq<Event>, b: Bucket, i: int) returns (more: seq<Event>)
    requires At(x, events, b, ReleaseRead(x.ch.op, i)) && b.Shaped()
    ensures At(x, more, Put(b, 0, b.words[0].(top := false)), Idle)
  {
    hide At;
    more := Step(x, events, b, ReleaseRead(x.ch.op, i));
    more := Step(x, more, b, ReleaseWrite(x.ch.op, i, b.words[0]));
  }

  // The address is there.
  lemma Known(x: Solo, events: seq<Event>, b: Bucket, i: nat) returns (more: seq<Event>)
    requires At(x, events, b, Probing(x.ch.op)) && b.Shaped() && Probe(b.keys, x.ch.op.addr) == i
    ensures var raised := if x.ch.op.Authorize? && b.words[i].pri < x.ch.op.priority
                          then Put(b, i, b.words[i].(pri := x.ch.op.priority)) else b;
            At(x, more, raised, ReleaseRead(x.ch.op, i))
  {
    hide At, Probe, Victim, BucketOf;
    var op := x.ch.op;
    more := Step(x, events, b, Probing(op));
    if op.Authorize? {
      more := Step(x, more, b, Comparing(op, i));
      if b.words[i].pri < op.priority {
        more := Step(x, more, b, RaiseRead(op, i));
        more := Step(x, more, b, RaiseWrite(op, i, b.words[i]));
      }
    }
  }

  // It is not, and the entry to use has been found.
  lemma Fill(x: Solo, events: seq<Event>, b: Bucket, i: nat) returns (more: seq<Event>)
    requires At(x, events, b, KeyWrite(x.ch.op, x.ch.tsec % AGES, i)) && b.Shaped() && i < 8
    ensures At(x, more, NewEntry(b, i, x.ch.op, x.ch.tsec, x.ch.ptr), ReleaseRead(x.ch.op, i))
  {
    hide At, LocalStep;
    var op, tsec := x.ch.op, x.ch.tsec % AGES;
    more := FillKey(x, events, b, i);
    var b1 := b.(keys := b.keys[i := op.addr]);
    more := FillAge(x, more, b1, i);
    var b2 := Put(b1, i, b1.words[i].(age := tsec));
    more := FillPri(x, more, b2, i);
    var b3 := Put(b2, i, b2.words[i].(pri := Priority(op)));
    more := FillPtr(x, more, b3, i);
    var ptr := if op.Insert? then x.ch.ptr % PTRS else 0;
    assert Put(b3, i, b3.words[i].(ptr := ptr)).words == NewEntry(b, i, op, x.ch.tsec, x.ch.ptr).words;
  }

  lemma FillKey(x: Solo, events: seq<Event>, b: Bucket, i: nat) returns (more: seq<Event>)
    requires At(x, events, b, KeyWrite(x.ch.op, x.ch.tsec % AGES, i)) && b.Shaped() && i < 8
    ensures At(x, more, b.(keys := b.keys[i := x.ch.op.addr]), AgeRead(x.ch.op, x.ch.tsec % AGES, i))
  {
    hide At, Probe, Victim;
    more := Step(x, events, b, KeyWrite(x.ch.op, x.ch.tsec % AGES, i));
  }

  lemma FillAge(x: Solo, events: seq<Event>, b: Bucket, i: nat) returns (more: seq<Event>)
    requires At(x, events, b, AgeRead(x.ch.op, x.ch.tsec % AGES, i)) && b.Shaped() && i < 8
    ensures At(x, more, Put(b, i, b.words[i].(age := x.ch.tsec % AGES)), PriRead(x.ch.op, x.ch.tsec % AGES, i))
  {
    hide At, Probe, Victim;
    var op, tsec := x.ch.op, x.ch.tsec % AGES;
    more := Step(x, events, b, AgeRead(op, tsec, i));
    more := Step(x, more, b, AgeWrite(op, tsec, i, b.words[i]));
  }

  lemma FillPri(x: Solo, events: seq<Event>, b: Bucket, i: nat) returns (more: seq<Event>)
    requires At(x, events, b, PriRead(x.ch.op, x.ch.tsec % AGES, i)) && b.Shaped() && i < 8
    ensures var op, tsec := x.ch.op, x.ch.tsec % AGES;
            At(x, more, Put(b, i, b.words[i].(pri := Priority(op))),
               if op.Insert? then PoolCall(op, tsec, i) else PtrRead(op, tsec, i, 0))
  {
    hide At, Probe, Victim;
    var op, tsec := x.ch.op, x.ch.tsec % AGES;
    more := Step(x, events, b, PriRead(op, tsec, i));
    more := Step(x, more, b, PriWrite(op, tsec, i, b.words[i]));
  }

  lemma FillPtr(x: Solo, events: seq<Event>, b: Bucket, i: nat) returns (more: seq<Event>)
    requires b.Shaped() && i < 8
    requires var op, tsec := x.ch.op, x.ch.tsec % AGES;
             At(x, events, b, if op.Insert? then PoolCall(op, tsec, i) else PtrRead(op, tsec, i, 0))
    ensures var ptr := if x.ch.op.Insert? then x.ch.ptr % PTRS else 0;
            At(x, more, Put(b, i, b.words[i].(ptr := ptr)), ReleaseRead(x.ch.op, i))
  {
    hide At, Probe, Victim;
    var op, tsec := x.ch.op, x.ch.tsec % AGES;
    var ptr := if op.Insert? then x.ch.ptr % PTRS else 0;
    more := events;
    if op.Insert? {
      more := Step(x, more, b, PoolCall(op, tsec, i));
    }
    more := Step(x, more, b, PtrRead(op, tsec, i, ptr));
    more := Step(x, more, b, PtrWrite(op, tsec, i, ptr, b.words[i]));
  }

  // Finding the entry to use, or giving up.
  lemma Reserve(x: Solo, events: seq<Event>, b: Bucket) returns (more: seq<Event>)
    requires At(x, events, b, Probing(x.ch.op)) && b.Shaped() && Probe(b.keys, x.ch.op.addr) < 0
    ensures var op, tsec, free := x.ch.op, x.ch.tsec % AGES, Probe(b.keys, 0);
            if !b.Exhausted() then
              if free < 0 then At(x, more, b, ReleaseRead(op, -1))
              else At(x, more, if free == 7 then MarkFull(b) else b, KeyWrite(op, tsec, free))
            else
              var victim := Victim(b.words, tsec);
              At(x, more, b, if b.words[victim].pri > NONE then ReleaseRead(op, -1) else KeyWrite(op, tsec, victim))
  {
    hide At, Probe, Victim, BucketOf;
    var op, tsec := x.ch.op, x.ch.tsec % AGES;
    more := Step(x, events, b, Probing(op));
    more := Step(x, more, b, Allocating(op, tsec));
    if !b.Exhausted() && Probe(b.keys, 0) == 7 {
      more := Step(x, more, b, MarkRead(op, tsec));
      more := Step(x, more, b, MarkWrite(op, tsec, b.words[1]));
    }
  }

  // ----- the whole call -----

  // In every reachable state where no core has the bucket, every call that an idle core makes completes when the core
  // runs alone, and has the effect of one step.
  lemma {:induction false} CallCompletes(n: nat, start: seq<Event>, bucket: nat, c: nat, ch: Choice)
    returns (events: seq<Event>)
    requires Valid(n, start) && c < n && Callable(ch.op, bucket)
    requires var s := After(n, start, bucket);
             s.cores[c].Idle? && forall d :: 0 <= d < n ==> !Holding(s.cores[d])
    ensures Valid(n, events) && Alone(start, events, c) && After(n, start, bucket).b.Shaped()
    ensures var s := After(n, start, bucket);
            After(n, events, bucket) == State(Atomic(s.b, ch.op, ch.tsec, ch.ptr), s.cores)
  {
    hide After, BucketOf, Atomic, LocalStep;
    var s := After(n, start, bucket);
    FreeBucket(s, bucket);
    var x := Solo(n, start, c, bucket, ch, s.cores);
    assert s.cores[c := Idle] == s.cores;
    events := RunCall(x, s.b);
  }

  lemma FreeBucket(s: State, bucket: nat)
    requires Invariant(s, bucket) && forall d :: 0 <= d < |s.cores| ==> !Holding(s.cores[d])
    ensures s.b.Shaped() && !s.b.Locked() && Consistent(s.b, Idle, bucket)
  {
    hide Consistent;
  }

  lemma RunCall(x: Solo, b: Bucket) returns (events: seq<Event>)
    requires At(x, x.start, b, Idle) && b.Shaped() && !b.Locked() && Callable(x.ch.op, x.bucket)
    ensures At(x, events, Atomic(b, x.ch.op, x.ch.tsec, x.ch.ptr), Idle)
  {
    hide At, Atomic, BucketOf;
    events := Enter(x, x.start, b);
    var result;
    events, result := RunLocked(x, events, Locked(b));
    AtomicShaped(Locked(b), x.ch.op, x.ch.tsec, x.ch.ptr);
    events := Leave(x, events, Atomic(Locked(b), x.ch.op, x.ch.tsec, x.ch.ptr), result);
    Unlocked(b, x.ch.op, x.ch.tsec, x.ch.ptr);
  }

  // From the probe to the release.
  lemma RunLocked(x: Solo, events: seq<Event>, b: Bucket) returns (more: seq<Event>, result: int)
    requires At(x, events, b, Probing(x.ch.op)) && b.Shaped()
    ensures At(x, more, Atomic(b, x.ch.op, x.ch.tsec, x.ch.ptr), ReleaseRead(x.ch.op, result))
  {
    hide At, Probe, Victim, NewEntry, MarkFull;
    var i := Probe(b.keys, x.ch.op.addr);
    if i >= 0 {
      result := i;
      more := Known(x, events, b, i);
    } else {
      more := Reserve(x, events, b);
      result := -1;
      var free, victim := Probe(b.keys, 0), Victim(b.words, x.ch.tsec % AGES);
      if !b.Exhausted() && free >= 0 {
        result := free;
        MarkShaped(b);
        more := Fill(x, more, if free == 7 then MarkFull(b) else b, free);
      } else if b.Exhausted() && b.words[victim].pri == NONE {
        result := victim;
        more := Fill(x, more, b, victim);
      }
    }
  }

  lemma MarkShaped(b: Bucket)
    requires b.Shaped()
    ensures MarkFull(b).Shaped()
  {
  }

  lemma AtomicShaped(b: Bucket, op: Op, tsec: nat, ptr: nat)
    requires b.Shaped()
    ensures Atomic(b, op, tsec, ptr).Shaped()
  {
    hide Probe, Victim;
  }

  // The lock bit has no part in it.
  lemma Unlocked(b: Bucket, op: Op, tsec: nat, ptr: nat)
    requires b.Shaped() && !b.Locked()
    ensures Atomic(Locked(b), op, tsec, ptr).Shaped()
    ensures var done := Atomic(Locked(b), op, tsec, ptr);
            Put(done, 0, done.words[0].(top := false)) == Atomic(b, op, tsec, ptr)
  {
    hide Probe, Victim;
    VictimIgnoresTop(Locked(b).words, b.words, tsec % AGES);
    var done, plain := Atomic(Locked(b), op, tsec, ptr), Atomic(b, op, tsec, ptr);
    assert done.keys == plain.keys;
    assert Put(done, 0, done.words[0].(top := false)).words == plain.words;
  }

  lemma {:induction false} VictimIgnoresTop(v: seq<Word>, w: seq<Word>, tsec: nat)
    requires |v| == |w| > 0 && forall i :: 0 <= i < |v| ==> w[i] == v[i].(top := w[i].top)
    ensures Victim(v, tsec) == Victim(w, tsec)
    decreases |v|
  {
    hide Score;
    forall i | 0 <= i < |v| ensures Score(v[i], tsec) == Score(w[i], tsec) {
      ScoreIgnoresTop(v[i], w[i].top, tsec);
    }
    if |v| > 1 {
      VictimIgnoresTop(v[..|v| - 1], w[..|w| - 1], tsec);
    }
  }

  lemma ScoreIgnoresTop(v: Word, top: bool, tsec: nat)
    ensures Score(v, tsec) == Score(v.(top := top), tsec)
  {
  }

  // ----- what the call does -----

  // The address ends up in an entry and nothing else changes but the flag of a bucket that has become full; or all
  // eight entries are authorized, none of them has the address, and nothing changes at all.
  lemma AtomicEffect(b: Bucket, bucket: nat, op: Op, tsec: nat, ptr: nat)
    requires Consistent(b, Idle, bucket) && Callable(op, bucket)
    ensures b.Shaped() && Atomic(b, op, tsec, ptr).Shaped()
    ensures var t := Atomic(b, op, tsec, ptr);
            if op.addr !in b.keys && forall i :: 0 <= i < 8 ==> b.words[i].pri > NONE then t == b
            else exists i :: 0 <= i < 8 && Holds(b, t, op, tsec, ptr, i)
  {
    hide Probe, Victim, BucketOf, NewEntry, MarkFull, Holds, Score;
    AtomicShaped(b, op, tsec, ptr);
    var i := Probe(b.keys, op.addr);
    VictimDecides(b, tsec % AGES);
    if i >= 0 {
      HoldsKnown(b, op, tsec, ptr, i);
    } else if !b.Exhausted() {
      var free := Probe(b.keys, 0);
      assert b.keys[7] == 0 && b.keys[7] in b.keys;
      MarkShaped(b);
      HoldsNew(b, if free == 7 then MarkFull(b) else b, op, tsec, ptr, free);
    } else if b.words[Victim(b.words, tsec % AGES)].pri == NONE {
      HoldsNew(b, b, op, tsec, ptr, Victim(b.words, tsec % AGES));
    }
  }

  // Entry i of the bucket t after the call, against the bucket b before it.
  ghost predicate Holds(b: Bucket, t: Bucket, op: Op, tsec: nat, ptr: nat, i: nat)
    requires b.Shaped() && t.Shaped() && i < 8
  {
    && t.keys[i] == op.addr
    && (op.addr !in b.keys ==>
          && b.words[i].pri == NONE && t.words[i].age == tsec % AGES && t.words[i].pri == Priority(op)
          && t.words[i].ptr == if op.Insert? then ptr % PTRS else 0)
    && (op.addr in b.keys ==>
          t.words[i] == b.words[i].(pri := if op.Authorize? && b.words[i].pri < op.priority then op.priority
                                           else b.words[i].pri))
    && forall j :: 0 <= j < 8 && j != i ==>
         t.keys[j] == b.keys[j] && t.words[j] == b.words[j].(top := t.words[j].top)
  }

  lemma HoldsKnown(b: Bucket, op: Op, tsec: nat, ptr: nat, i: nat)
    requires b.Shaped() && i < 8 && Probe(b.keys, op.addr) == i
    ensures Atomic(b, op, tsec, ptr).Shaped() && Holds(b, Atomic(b, op, tsec, ptr), op, tsec, ptr, i)
  {
    hide Probe, Victim;
    assert b.keys[i] in b.keys;
  }

  lemma HoldsNew(b: Bucket, marked: Bucket, op: Op, tsec: nat, ptr: nat, i: nat)
    requires b.Shaped() && marked.Shaped() && i < 8 && op.addr !in b.keys && b.words[i].pri == NONE
    requires marked == b || marked == MarkFull(b)
    ensures NewEntry(marked, i, op, tsec, ptr).Shaped()
    ensures Holds(b, NewEntry(marked, i, op, tsec, ptr), op, tsec, ptr, i)
  {
  }

  // host_insert leaves without the lock only where it sees the lock bit set; host_insert_authorized never does.
  lemma {:induction false} GivesUpExactly(n: nat, events: seq<Event>, bucket: nat, c: nat, ch: Choice)
    requires Valid(n, events) && c < n && After(n, events, bucket).cores[c].Testing?
    ensures var s := After(n, events, bucket);
            && s.b.Shaped() && InRange(s.cores[c])
            && (Next(s, c, ch, bucket).cores[c].Idle? <==> s.cores[c].op.Insert? && s.b.Locked())
  {
    hide After, BucketOf;
    InvariantShape(After(n, events, bucket), bucket);
  }
}
