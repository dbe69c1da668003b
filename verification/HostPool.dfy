// ntfe/host.cpp: host_allocate and host_pool_grow as a machine of N cores over hp_size and hp_true_sz.
//
// The increment of hp_size is atomic; the growth of hp_true_sz is a commit, a read and a write. The protocol is safe
// for any run exactly when there are at most HPOOL_GROW / 2 + 1 = 33 cores.
module HostPool {

  const GROW: nat := 64
  const HALF: nat := 32
  const SAFE_CORES: nat := 33

  // A growing core holds the index it was given; t is the size it has read.
  datatype Pc =
    | Idle
    | Commit(idx: nat)
    | SizeRead(idx: nat)
    | SizeWrite(idx: nat, t: nat)
    | Check(idx: nat)
    | Stall(idx: nat)

  // backed is how far the region is committed; returned is every index handed out so far.
  datatype Pool = Pool(size: nat, trueSize: nat, backed: nat, cores: seq<Pc>, returned: set<nat>)

  predicate Growing(pc: Pc) {
    pc.Commit? || pc.SizeRead? || pc.SizeWrite?
  }

  predicate Waiting(pc: Pc) {
    pc.Check? || pc.Stall?
  }

  // The index whose core grows the pool: ((idx - HPOOL_GROW/2) & (HPOOL_GROW-1)) == 0
  predicate Triggers(idx: nat) {
    (idx - HALF) % GROW == 0
  }

  // One memory access of core c.
  function Next(s: Pool, c: nat): Pool
    requires c < |s.cores|
  {
    match s.cores[c]
    case Idle =>
      var idx := s.size + 1;
      s.(size := idx, cores := s.cores[c := if Triggers(idx) then Commit(idx) else Check(idx)])
    case Commit(idx) =>
      s.(backed := if s.trueSize <= s.backed < s.trueSize + GROW then s.trueSize + GROW else s.backed,
         cores := s.cores[c := SizeRead(idx)])
    case SizeRead(idx) => s.(cores := s.cores[c := SizeWrite(idx, s.trueSize)])
    case SizeWrite(idx, t) => s.(trueSize := t + GROW, cores := s.cores[c := Idle], returned := s.returned + {idx})
    case Check(idx) => Look(s, c, idx)
    case Stall(idx) => Look(s, c, idx)
  }

  // idx >= gs.hp_true_sz: wait, or return.
  function Look(s: Pool, c: nat, idx: nat): Pool
    requires c < |s.cores|
  {
    if idx >= s.trueSize then s.(cores := s.cores[c := Stall(idx)])
    else s.(cores := s.cores[c := Idle], returned := s.returned + {idx})
  }

  // After ntfe_init: one growth of an empty pool, and n cores.
  function Initial(n: nat): Pool {
    Pool(0, GROW, GROW, seq(n, _ => Idle), {})
  }

  // A run names the core of each step, among those that exist.
  ghost predicate Valid(n: nat, run: seq<nat>) {
    forall k :: 0 <= k < |run| ==> run[k] < n
  }

  ghost function Run(s: Pool, run: seq<nat>): (t: Pool)
    requires Valid(|s.cores|, run)
    ensures |t.cores| == |s.cores|
    decreases |run|
  {
    if run == [] then s
    else Next(Run(s, run[..|run| - 1]), run[|run| - 1])
  }

  // ----- the invariant -----

  ghost predicate Indices(s: Pool) {
    && (forall c :: 0 <= c < |s.cores| && !s.cores[c].Idle? ==>
        0 < s.cores[c].idx <= s.size && s.cores[c].idx !in s.returned)
    && (forall c, d :: 0 <= c < d < |s.cores| && !s.cores[c].Idle? && !s.cores[d].Idle? ==>
        s.cores[c].idx != s.cores[d].idx)
    && (forall i :: i in s.returned ==> 0 < i <= s.size && i < s.trueSize)
    && (forall i :: 0 < i <= s.size && i !in s.returned ==> Held(s, i))
  }

  ghost predicate Held(s: Pool, i: nat) {
    exists c :: 0 <= c < |s.cores| && !s.cores[c].Idle? && s.cores[c].idx == i
  }

  ghost predicate OneGrower(s: Pool) {
    forall c, d :: 0 <= c < d < |s.cores| ==> !(Growing(s.cores[c]) && Growing(s.cores[d]))
  }

  ghost predicate SomeGrower(s: Pool) {
    exists c :: 0 <= c < |s.cores| && Growing(s.cores[c])
  }

  ghost predicate Growth(s: Pool) {
    && s.trueSize % GROW == 0 && s.trueSize >= GROW && s.trueSize <= s.backed
    && s.size < s.trueSize + HALF
    && (s.trueSize > GROW ==> s.size + GROW + HALF >= s.trueSize)
    // a grower works on the index halfway through the last 64, and is there exactly when that index has been given out
    && (forall c :: 0 <= c < |s.cores| && Growing(s.cores[c]) ==> s.cores[c].idx + HALF == s.trueSize)
    && (forall c :: 0 <= c < |s.cores| && s.cores[c].SizeWrite? ==>
        s.cores[c].t == s.trueSize && s.backed >= s.trueSize + GROW)
    && (forall c :: 0 <= c < |s.cores| && s.cores[c].SizeRead? ==> s.backed >= s.trueSize + GROW)
    && (s.backed <= s.trueSize + GROW)
    && (s.size + HALF >= s.trueSize <==> SomeGrower(s))
    && (forall c :: 0 <= c < |s.cores| && Waiting(s.cores[c]) ==> !Triggers(s.cores[c].idx))
  }

  ghost predicate Invariant(s: Pool) {
    Indices(s) && OneGrower(s) && Growth(s)
  }

  lemma InitialInvariant(n: nat)
    ensures Invariant(Initial(n))
  {
  }

  // ----- counting: indices past the committed size are held by as many cores -----

  ghost function HoldersFrom(s: Pool, lo: nat, hi: nat): set<nat> {
    set c | 0 <= c < |s.cores| && !s.cores[c].Idle? && lo <= s.cores[c].idx < hi
  }

  lemma {:induction false} Pigeonhole(s: Pool, lo: nat, hi: nat)
    requires lo <= hi && forall i :: lo <= i < hi ==> Held(s, i)
    ensures |HoldersFrom(s, lo, hi)| >= hi - lo
    decreases hi
  {
    if lo < hi {
      Pigeonhole(s, lo, hi - 1);
      assert Held(s, hi - 1);
      var c :| 0 <= c < |s.cores| && !s.cores[c].Idle? && s.cores[c].idx == hi - 1;
      var few := HoldersFrom(s, lo, hi - 1);
      assert c !in few && few + {c} <= HoldersFrom(s, lo, hi);
      CardSubset(few + {c}, HoldersFrom(s, lo, hi));
    }
  }

  lemma {:induction false} CardSubset(a: set<nat>, b: set<nat>)
    requires a <= b
    ensures |a| <= |b|
    decreases a
  {
    if a != {} {
      var x :| x in a;
      CardSubset(a - {x}, b - {x});
    }
  }

  ghost function Range(n: nat): set<nat> {
    if n == 0 then {} else Range(n - 1) + {n - 1}
  }

  lemma {:induction false} RangeSize(n: nat)
    ensures |Range(n)| == n && forall c: nat :: c in Range(n) <==> c < n
  {
    if n > 0 {
      RangeSize(n - 1);
    }
  }

  // While a core grows the pool and another is about to ask, at most 33 cores leave fewer than 32 indices waiting.
  lemma RoomLeft(s: Pool, g: nat, c: nat)
    requires Invariant(s) && |s.cores| <= SAFE_CORES
    requires g < |s.cores| && Growing(s.cores[g]) && c < |s.cores| && s.cores[c].Idle?
    ensures s.size + 1 < s.trueSize + HALF
  {
    if s.size >= s.trueSize {
      var lo, hi := s.trueSize, s.size + 1;
      forall i | lo <= i < hi ensures Held(s, i) {
        assert i !in s.returned;
      }
      Pigeonhole(s, lo, hi);
      var h := HoldersFrom(s, lo, hi);
      assert g !in h && c !in h;
      TwoMore(h, g, c, |s.cores|);
    }
  }

  lemma TwoMore(h: set<nat>, g: nat, c: nat, n: nat)
    requires g !in h && c !in h && g != c && g < n && c < n && forall x :: x in h ==> x < n
    ensures |h| + 2 <= n
  {
    RangeSize(n);
    var all := h + {g} + {c};
    assert |all| == |h| + 2;
    CardSubset(all, Range(n));
  }

  // ----- one step -----

  lemma StepKeeps(s: Pool, c: nat)
    requires Invariant(s) && c < |s.cores| && |s.cores| <= SAFE_CORES
    ensures Invariant(Next(s, c))
  {
    match s.cores[c]
    case Idle => TakeKeeps(s, c);
    case Commit(_) => QuietKeeps(s, c);
    case SizeRead(_) => QuietKeeps(s, c);
    case SizeWrite(_, _) => GrowKeeps(s, c);
    case _ => LookKeeps(s, c);
  }

  // A core that keeps its index.
  lemma HeldSame(s: Pool, t: Pool, c: nat)
    requires c < |s.cores| == |t.cores| && t.cores == s.cores[c := t.cores[c]]
    requires !s.cores[c].Idle? && !t.cores[c].Idle? && s.cores[c].idx == t.cores[c].idx
    ensures forall i :: Held(s, i) ==> Held(t, i)
  {
    forall i | Held(s, i) ensures Held(t, i) {
      var d :| 0 <= d < |s.cores| && !s.cores[d].Idle? && s.cores[d].idx == i;
      assert !t.cores[d].Idle? && t.cores[d].idx == i;
    }
  }

  // A core that returns its index.
  lemma HeldBut(s: Pool, t: Pool, c: nat)
    requires c < |s.cores| == |t.cores| && t.cores == s.cores[c := Idle] && !s.cores[c].Idle?
    ensures forall i :: Held(s, i) && i != s.cores[c].idx ==> Held(t, i)
  {
    forall i | Held(s, i) && i != s.cores[c].idx ensures Held(t, i) {
      var d :| 0 <= d < |s.cores| && !s.cores[d].Idle? && s.cores[d].idx == i;
      assert !t.cores[d].Idle? && t.cores[d].idx == i;
    }
  }

  // A core that takes an index.
  lemma HeldMore(s: Pool, t: Pool, c: nat)
    requires c < |s.cores| == |t.cores| && t.cores == s.cores[c := t.cores[c]] && s.cores[c].Idle? && !t.cores[c].Idle?
    ensures forall i :: Held(s, i) ==> Held(t, i)
    ensures Held(t, t.cores[c].idx)
  {
    forall i | Held(s, i) ensures Held(t, i) {
      var d :| 0 <= d < |s.cores| && !s.cores[d].Idle? && s.cores[d].idx == i;
      assert !t.cores[d].Idle? && t.cores[d].idx == i;
    }
  }

  // A step inside the growth.
  lemma QuietKeeps(s: Pool, c: nat)
    requires Invariant(s) && c < |s.cores| && (s.cores[c].Commit? || s.cores[c].SizeRead?)
    ensures Invariant(Next(s, c))
  {
    hide Held;
    var t := Next(s, c);
    HeldSame(s, t, c);
    assert Growing(s.cores[c]) && Growing(t.cores[c]);
    assert forall d :: 0 <= d < |s.cores| && d != c ==> t.cores[d] == s.cores[d];
  }

  lemma GrowKeeps(s: Pool, c: nat)
    requires Invariant(s) && c < |s.cores| && s.cores[c].SizeWrite?
    ensures Invariant(Next(s, c))
  {
    hide Held;
    var t := Next(s, c);
    HeldBut(s, t, c);
    assert Growing(s.cores[c]);
    assert forall d :: 0 <= d < |s.cores| && d != c ==> t.cores[d] == s.cores[d] && !Growing(t.cores[d]);
  }

  lemma LookKeeps(s: Pool, c: nat)
    requires Invariant(s) && c < |s.cores| && Waiting(s.cores[c])
    ensures Invariant(Next(s, c))
  {
    hide Indices, OneGrower, Growth;
    LookIndices(s, c);
    LookGrowth(s, c);
  }

  lemma LookIndices(s: Pool, c: nat)
    requires Indices(s) && c < |s.cores| && Waiting(s.cores[c])
    ensures Indices(Next(s, c))
  {
    hide Held;
    var t := Next(s, c);
    if s.cores[c].idx >= s.trueSize {
      HeldSame(s, t, c);
    } else {
      HeldBut(s, t, c);
    }
    assert forall d :: 0 <= d < |s.cores| && d != c ==> t.cores[d] == s.cores[d];
  }

  lemma LookGrowth(s: Pool, c: nat)
    requires OneGrower(s) && Growth(s) && c < |s.cores| && Waiting(s.cores[c])
    ensures OneGrower(Next(s, c)) && Growth(Next(s, c))
  {
    var t := Next(s, c);
    assert forall d :: 0 <= d < |s.cores| && d != c ==> t.cores[d] == s.cores[d];
    if SomeGrower(s) {
      var g :| 0 <= g < |s.cores| && Growing(s.cores[g]);
      assert Growing(t.cores[g]);
    }
  }

  // Taking the next index: while a core grows the pool it is not the one that would start another growth.
  lemma TakeKeeps(s: Pool, c: nat)
    requires Invariant(s) && c < |s.cores| && s.cores[c].Idle? && |s.cores| <= SAFE_CORES
    ensures Invariant(Next(s, c))
  {
    hide Indices, OneGrower, Growth;
    TakeIndices(s, c);
    if SomeGrower(s) {
      var g :| 0 <= g < |s.cores| && Growing(s.cores[g]);
      RoomLeft(s, g, c);
      TakeWhileGrowing(s, g, c);
    } else {
      TakeWhileQuiet(s, c);
    }
  }

  lemma TakeIndices(s: Pool, c: nat)
    requires Indices(s) && c < |s.cores| && s.cores[c].Idle?
    ensures Indices(Next(s, c))
  {
    hide Held;
    var t := Next(s, c);
    HeldMore(s, t, c);
    assert forall d :: 0 <= d < |s.cores| && d != c ==> t.cores[d] == s.cores[d];
  }

  lemma TakeWhileGrowing(s: Pool, g: nat, c: nat)
    requires OneGrower(s) && Growth(s) && c < |s.cores| && s.cores[c].Idle?
    requires g < |s.cores| && Growing(s.cores[g]) && s.size + 1 < s.trueSize + HALF
    ensures OneGrower(Next(s, c)) && Growth(Next(s, c))
  {
    var t := Next(s, c);
    assert forall d :: 0 <= d < |s.cores| && d != c ==> t.cores[d] == s.cores[d];
    assert SomeGrower(s);
    NoSecondTrigger(s.size + 1, s.trueSize);
    assert Growing(t.cores[g]);
  }

  lemma TakeWhileQuiet(s: Pool, c: nat)
    requires OneGrower(s) && Growth(s) && c < |s.cores| && s.cores[c].Idle? && !SomeGrower(s)
    ensures OneGrower(Next(s, c)) && Growth(Next(s, c))
  {
    var t := Next(s, c);
    assert forall d :: 0 <= d < |s.cores| && d != c ==> t.cores[d] == s.cores[d] && !Growing(s.cores[d]);
    NextTrigger(s.size + 1, s.trueSize);
    assert Growing(t.cores[c]) <==> Triggers(s.size + 1);
  }

  lemma NoSecondTrigger(idx: nat, size: nat)
    requires size % GROW == 0 && size < idx + HALF && idx < size + HALF
    ensures !Triggers(idx)
  {
  }

  lemma NextTrigger(idx: nat, size: nat)
    requires size % GROW == 0 && size >= GROW && 0 < idx && idx + HALF <= size
    requires size > GROW ==> idx + GROW + HALF > size
    ensures Triggers(idx) <==> idx + HALF == size
  {
  }

  // ----- every run of at most 33 cores -----

  lemma {:induction false} RunKeeps(s: Pool, run: seq<nat>)
    requires Invariant(s) && |s.cores| <= SAFE_CORES && Valid(|s.cores|, run)
    ensures Invariant(Run(s, run))
    decreases |run|
  {
    hide Invariant;
    if run != [] {
      RunKeeps(s, run[..|run| - 1]);
      StepKeeps(Run(s, run[..|run| - 1]), run[|run| - 1]);
    }
  }

  // Every index handed out is nonzero, new, and backed by committed memory.
  lemma FreshIndex(s: Pool, c: nat, idx: nat)
    requires Invariant(s) && c < |s.cores| && |s.cores| <= SAFE_CORES
    requires idx in Next(s, c).returned && idx !in s.returned
    ensures idx > 0 && Next(s, c).returned == s.returned + {idx}
    ensures idx < Next(s, c).trueSize <= Next(s, c).backed
  {
    hide Held;
    StepKeeps(s, c);
  }

  // No increment of the size is lost: it grows by 64 with every growth that finishes, and only then.
  lemma SizeNeverLost(s: Pool, c: nat)
    requires Invariant(s) && c < |s.cores|
    ensures Next(s, c).trueSize == s.trueSize + (if s.cores[c].SizeWrite? then GROW else 0)
  {
    hide Held;
  }

  // ----- a stalled core is released -----

  // How often core g steps in a run.
  ghost function Turns(run: seq<nat>, g: nat): nat
    decreases |run|
  {
    if run == [] then 0 else Turns(run[..|run| - 1], g) + (if run[|run| - 1] == g then 1 else 0)
  }

  // The steps a grower has left.
  ghost function StepsLeft(pc: Pc): nat {
    match pc
    case Commit(_) => 3
    case SizeRead(_) => 2
    case SizeWrite(_, _) => 1
    case _ => 0
  }

  // Whatever the cores do, three turns of core g commit index idx, and the next turn of core c hands it out.
  ghost predicate ReleasedBy(s: Pool, g: nat, c: nat, idx: nat)
    requires c < |s.cores|
  {
    forall run: seq<nat> :: Valid(|s.cores|, run) && Turns(run, g) >= 3 ==>
      var t := Run(s, run);
      t.trueSize > idx && idx in Next(t, c).returned
  }

  // A core stalled on an index has a grower that will release it.
  lemma StallEnds(s: Pool, c: nat)
    requires Invariant(s) && |s.cores| <= SAFE_CORES
    requires c < |s.cores| && Waiting(s.cores[c]) && s.cores[c].idx >= s.trueSize
    ensures exists g :: 0 <= g < |s.cores| && Growing(s.cores[g]) && ReleasedBy(s, g, c, s.cores[c].idx)
  {
    hide Held, Run, Next, Valid, Turns;
    assert SomeGrower(s);
    var g :| 0 <= g < |s.cores| && Growing(s.cores[g]);
    var idx := s.cores[c].idx;
    forall run: seq<nat> | Valid(|s.cores|, run) && Turns(run, g) >= 3
      ensures Run(s, run).trueSize > idx && idx in Next(Run(s, run), c).returned
    {
      GrowthFinishes(s, g, c, run);
      AskAgain(Run(s, run), c, idx);
    }
    assert ReleasedBy(s, g, c, idx);
  }

  // While core g is growing the pool for core c: g has fewer steps left with each of its turns, and c keeps waiting.
  ghost predicate Pending(s: Pool, g: nat, c: nat, idx: nat, turns: nat)
    requires g < |s.cores| && c < |s.cores|
  {
    && idx < s.trueSize + GROW
    && (s.trueSize > idx || (Growing(s.cores[g]) && StepsLeft(s.cores[g]) + turns <= 3))
    && (idx in s.returned || (Waiting(s.cores[c]) && s.cores[c].idx == idx))
  }

  lemma {:induction false} GrowthFinishes(s: Pool, g: nat, c: nat, run: seq<nat>)
    requires Invariant(s) && |s.cores| <= SAFE_CORES && Valid(|s.cores|, run)
    requires g < |s.cores| && Growing(s.cores[g])
    requires c < |s.cores| && Waiting(s.cores[c]) && s.cores[c].idx >= s.trueSize
    ensures Pending(Run(s, run), g, c, s.cores[c].idx, Turns(run, g))
    decreases |run|
  {
    hide Held, Next, Invariant, Pending;
    var idx := s.cores[c].idx;
    if run == [] {
      StartsPending(s, g, c);
    } else {
      var front, e := run[..|run| - 1], run[|run| - 1];
      GrowthFinishes(s, g, c, front);
      RunKeeps(s, front);
      StaysPending(Run(s, front), g, c, idx, Turns(front, g), e);
    }
  }

  lemma StartsPending(s: Pool, g: nat, c: nat)
    requires Invariant(s) && g < |s.cores| && Growing(s.cores[g]) && c < |s.cores| && Waiting(s.cores[c])
    ensures Pending(s, g, c, s.cores[c].idx, 0)
  {
    hide Held;
  }

  lemma StaysPending(s: Pool, g: nat, c: nat, idx: nat, turns: nat, e: nat)
    requires Invariant(s) && g < |s.cores| && c < |s.cores| && e < |s.cores|
    requires Pending(s, g, c, idx, turns)
    ensures Pending(Next(s, e), g, c, idx, turns + (if e == g then 1 else 0))
  {
    hide Held, Indices;
    SizeNeverLost(s, e);
  }

  // Once the size passes its index a waiting core returns it.
  lemma AskAgain(s: Pool, c: nat, idx: nat)
    requires c < |s.cores| && s.trueSize > idx
    requires idx in s.returned || (Waiting(s.cores[c]) && s.cores[c].idx == idx)
    ensures idx in Next(s, c).returned
  {
  }

  // ----- an allocation completes -----

  lemma {:induction false} RunJoin(s: Pool, a: seq<nat>, b: seq<nat>)
    requires Valid(|s.cores|, a) && Valid(|s.cores|, b)
    ensures Valid(|s.cores|, a + b) && Run(s, a + b) == Run(Run(s, a), b)
    decreases |b|
  {
    hide Next;
    if b == [] {
      assert a + b == a;
    } else {
      RunJoin(s, a, b[..|b| - 1]);
      assert (a + b)[..|a + b| - 1] == a + b[..|b| - 1];
    }
  }

  lemma {:induction false} RunOne(s: Pool, c: nat)
    requires c < |s.cores|
    ensures Valid(|s.cores|, [c]) && Run(s, [c]) == Next(s, c)
  {
    hide Next;
    assert [c][..0] == [];
  }

  // An idle core that asks is given the next index, in some run from any state of at most 33 cores.
  lemma AllocationReturns(s: Pool, c: nat) returns (run: seq<nat>)
    requires Invariant(s) && |s.cores| <= SAFE_CORES && c < |s.cores| && s.cores[c].Idle?
    ensures Valid(|s.cores|, run)
    ensures var t := Run(s, run);
            t.cores[c].Idle? && t.returned >= s.returned + {s.size + 1} && t.size == s.size + 1
  {
    hide Held, Run, Valid;
    var first := Next(s, c);
    StepKeeps(s, c);
    RunOne(s, c);
    if first.cores[c].Commit? {
      run := FourTurns(s, c);
    } else if first.cores[c].idx < first.trueSize {
      RunOne(first, c);
      RunJoin(s, [c], [c]);
      run := [c] + [c];
    } else {
      run := WaitForGrower(s, c);
    }
  }

  lemma FourTurns(s: Pool, c: nat) returns (run: seq<nat>)
    requires c < |s.cores| && s.cores[c].Idle? && Next(s, c).cores[c].Commit?
    ensures Valid(|s.cores|, run)
    ensures var t := Run(s, run);
            t.cores[c].Idle? && t.returned >= s.returned + {s.size + 1} && t.size == s.size + 1
  {
    hide Run, Valid;
    run := TwoTurns(s, c);
    var t := Run(s, run);
    var more := TwoTurns(t, c);
    RunJoin(s, run, more);
    run := run + more;
  }

  lemma TwoTurns(s: Pool, c: nat) returns (run: seq<nat>)
    requires c < |s.cores|
    ensures Valid(|s.cores|, run) && Run(s, run) == Next(Next(s, c), c)
  {
    hide Next, Run, Valid;
    RunOne(s, c);
    RunOne(Next(s, c), c);
    NextCores(s, c);
    RunJoin(s, [c], [c]);
    run := [c] + [c];
  }

  lemma NextCores(s: Pool, c: nat)
    requires c < |s.cores|
    ensures |Next(s, c).cores| == |s.cores|
  {
  }

  // The grower takes its turns, and the core asks again.
  lemma WaitForGrower(s: Pool, c: nat) returns (run: seq<nat>)
    requires Invariant(s) && |s.cores| <= SAFE_CORES && c < |s.cores| && s.cores[c].Idle?
    requires var first := Next(s, c); Waiting(first.cores[c]) && first.cores[c].idx >= first.trueSize
    ensures Valid(|s.cores|, run)
    ensures var t := Run(s, run);
            t.cores[c].Idle? && t.returned >= s.returned + {s.size + 1} && t.size == s.size + 1
  {
    hide Held, Run, Valid;
    var first := Next(s, c);
    StepKeeps(s, c);
    assert SomeGrower(first);
    var g :| 0 <= g < |first.cores| && Growing(first.cores[g]);
    var growth := Grow(first, g);
    var grown := Run(first, growth);
    RunOne(s, c);
    RunJoin(s, [c], growth);
    RunOne(grown, c);
    RunJoin(s, [c] + growth, [c]);
    run := [c] + growth + [c];
  }

  lemma {:induction false} Grow(s: Pool, g: nat) returns (run: seq<nat>)
    requires Invariant(s) && |s.cores| <= SAFE_CORES && g < |s.cores| && Growing(s.cores[g])
    ensures Valid(|s.cores|, run)
    ensures var t := Run(s, run);
            && t.trueSize == s.trueSize + GROW && t.size == s.size && t.returned >= s.returned
            && forall d :: 0 <= d < |s.cores| && d != g ==> t.cores[d] == s.cores[d]
    decreases StepsLeft(s.cores[g])
  {
    hide Held, Run, Valid, Indices;
    RunOne(s, g);
    run := [g];
    if !s.cores[g].SizeWrite? {
      StepKeeps(s, g);
      var more := Grow(Next(s, g), g);
      RunJoin(s, [g], more);
      run := [g] + more;
    }
  }

  // ----- with one core more, two can grow the pool at once -----

  ghost function After(n: nat, run: seq<nat>): (s: Pool)
    requires Valid(n, run)
    ensures |s.cores| == n
  {
    Run(Initial(n), run)
  }

  lemma RunNext(n: nat, run: seq<nat>, c: nat)
    requires Valid(n, run) && c < n
    ensures Valid(n, run + [c]) && After(n, run + [c]) == Next(After(n, run), c)
  {
    hide Next;
    assert (run + [c])[..|run|] == run;
  }

  // Core c allocates k indices in a row, none of which needs growth or waiting.
  lemma {:induction false} TakeMany(n: nat, run: seq<nat>, c: nat, k: nat) returns (more: seq<nat>)
    requires Valid(n, run) && c < n
    requires var s := After(n, run);
             s.cores[c].Idle? && s.size + k < s.trueSize && forall i :: s.size < i <= s.size + k ==> !Triggers(i)
    ensures Valid(n, more)
    ensures var s, t := After(n, run), After(n, more);
            t.size == s.size + k && t.trueSize == s.trueSize && t.cores == s.cores
    decreases k
  {
    hide After, Triggers;
    more := run;
    if k > 0 {
      more := TakeMany(n, run, c, k - 1);
      var s := After(n, more);
      RunNext(n, more, c);
      RunNext(n, more + [c], c);
      more := more + [c] + [c];
      assert After(n, more).cores == s.cores;
    }
  }

  // Cores c, c + 1, ... take an index each and go no further.
  lemma {:induction false} WaitMany(n: nat, run: seq<nat>, c: nat, k: nat) returns (more: seq<nat>)
    requires Valid(n, run) && c + k <= n
    requires var s := After(n, run);
             && (forall d :: c <= d < c + k ==> s.cores[d].Idle?)
             && forall i :: s.size < i <= s.size + k ==> !Triggers(i)
    ensures Valid(n, more)
    ensures var s, t := After(n, run), After(n, more);
            && t.size == s.size + k && t.trueSize == s.trueSize
            && forall d :: 0 <= d < n && !(c <= d < c + k) ==> t.cores[d] == s.cores[d]
    decreases k
  {
    hide After, Triggers;
    more := run;
    if k > 0 {
      more := WaitMany(n, run, c, k - 1);
      RunNext(n, more, c + k - 1);
      more := more + [c + k - 1];
    }
  }

  lemma StartState(n: nat)
    ensures var s := After(n, []);
            s.size == 0 && s.trueSize == GROW && |s.cores| == n && forall d :: 0 <= d < n ==> s.cores[d] == Idle
  {
  }

  lemma TwoGrowersRun(n: nat) returns (run: seq<nat>)
    requires n > SAFE_CORES
    ensures Valid(n, run) && !OneGrower(After(n, run))
  {
    hide After;
    StartState(n);
    run := TakeMany(n, [], 0, 31);
    // core 0 takes index 32 and starts to grow the pool
    RunNext(n, run, 0);
    run := run + [0];
    assert After(n, run).cores[0] == Commit(32);
    run := TakeMany(n, run, 1, 31);
    // cores 1 to 32 take 64 to 95, and core 33 takes 96
    run := WaitMany(n, run, 1, 32);
    RunNext(n, run, 33);
    run := run + [33];
    var s := After(n, run);
    assert Growing(s.cores[0]) && Growing(s.cores[33]);
  }

  lemma AfterKeeps(n: nat, run: seq<nat>)
    requires n <= SAFE_CORES && Valid(n, run)
    ensures OneGrower(After(n, run))
  {
    InitialInvariant(n);
    RunKeeps(Initial(n), run);
  }

  // No run of n cores has two of them growing the pool together.
  ghost predicate Safe(n: nat) {
    forall run: seq<nat> :: Valid(n, run) ==> OneGrower(After(n, run))
  }

  lemma SafeExactly(n: nat)
    ensures Safe(n) <==> n <= SAFE_CORES
  {
    hide After, OneGrower;
    if n <= SAFE_CORES {
      forall run: seq<nat> | Valid(n, run) ensures OneGrower(After(n, run)) {
        AfterKeeps(n, run);
      }
    } else {
      var run := TwoGrowersRun(n);
      assert Valid(n, run) && !OneGrower(After(n, run));
    }
  }
}
