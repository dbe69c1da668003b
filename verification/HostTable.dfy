// ntfe/host.cpp, ntfe/ntfe.h and ntfe/helper.cpp: one bucket of the host table as a machine of any number of cores.
//
// A step is one memory access. The lock is bit 31 of control word 0 and the exhausted flag bit 31 of control word 1;
// setting the lock is atomic, but releasing it and assigning any bit field is a read followed, any number of other
// cores' steps later, by a write of the whole word.
module HostTable {
  import opened Bytes

  const NONE: nat := 0
  const STATIC: nat := 3
  const AGES: nat := 2048
  const PTRS: nat := 0x4_0000
  const BUCKETS: nat := 0x4_0000

  // A control word: its three fields and its top bit.
  datatype Word = Word(age: nat, pri: nat, ptr: nat, top: bool)

  datatype Bucket = Bucket(keys: seq<nat>, words: seq<Word>) {
    predicate Shaped() {
      |keys| == 8 && |words| == 8
    }

    predicate Locked()
      requires Shaped()
    {
      words[0].top
    }

    predicate Exhausted()
      requires Shaped()
    {
      words[1].top
    }
  }

  // ----- keys -----

  // inet_hashfn, and the bucket of an address
  function InetHash(addr: nat): nat {
    var h := addr * 0x32583499 % WORD;
    BitXor(h, h / 0x1_0000)
  }

  function BucketOf(addr: nat): (k: nat)
    ensures k < BUCKETS
  {
    InetHash(addr) % BUCKETS
  }

  // probe_bucket: the first entry with the key, or -1
  function Probe(keys: seq<nat>, addr: nat): (i: int)
    ensures -1 <= i < |keys|
    ensures i >= 0 ==> keys[i] == addr && forall j :: 0 <= j < i ==> keys[j] != addr
    ensures i < 0 ==> addr !in keys
  {
    if keys == [] then -1
    else if keys[0] == addr then 0
    else
      var i := Probe(keys[1..], addr);
      if i < 0 then -1 else i + 1
  }

  // ----- eviction -----

  // How good an eviction candidate is: lowest priority first, then greatest age difference modulo 2048.
  function Score(w: Word, tsec: nat): nat
  {
    w.pri * AGES + (AGES - 1 - (tsec - w.age) % AGES)
  }

  // The first entry with the least score.
  ghost predicate IsVictim(words: seq<Word>, tsec: nat, idx: int) {
    && 0 <= idx < |words|
    && (forall j :: 0 <= j < |words| ==> Score(words[idx], tsec) <= Score(words[j], tsec))
    && (forall j :: 0 <= j < idx ==> Score(words[idx], tsec) < Score(words[j], tsec))
  }

  function Victim(words: seq<Word>, tsec: nat): (idx: nat)
    requires |words| > 0
    ensures IsVictim(words, tsec, idx)
  {
    if |words| == 1 then 0
    else
      var k := Victim(words[..|words| - 1], tsec);
      if Score(words[|words| - 1], tsec) < Score(words[k], tsec) then |words| - 1 else k
  }

  // So the candidate has the lowest priority, and of those the greatest age, and is the first of equals.
  lemma CandidateOrder(words: seq<Word>, tsec: nat, i: nat, j: nat)
    requires IsVictim(words, tsec, i) && j < |words|
    ensures var age, other := (tsec - words[i].age) % AGES, (tsec - words[j].age) % AGES;
            && (words[i].pri < words[j].pri || (words[i].pri == words[j].pri && age >= other))
            && (j < i ==> words[i].pri < words[j].pri || age > other)
  {
  }

  // ----- the scan of allocate, on control words as the C union lays them out -----

  ghost predicate Fits(w: Word) {
    w.age < AGES && w.pri < 4 && w.ptr < PTRS
  }

  // age in bits 0-10, pri in 11-12, ptr in 13-30, the borrowed bit in 31
  ghost function Packed(w: Word): (v: nat) {
    w.age + AGES * w.pri + 8192 * w.ptr + (if w.top then 0x8000_0000 else 0)
  }

  // (~(tsec - age) & HTB_AGE_MASK) | (v & HTB_PRI_MASK); the age field is v & HTB_AGE_MASK
  method Distance(v: nat, tsec: nat, ghost w: Word) returns (dist: nat)
    requires Fits(w) && v == Packed(w) && tsec < AGES
    ensures dist == Score(w, tsec) < 0x1_0000
  {
    hide BitAnd, BitOr, Packed, Score;
    var age := BitAnd(2047, v);
    PackedFields(v, w);
    var inverted := (-1 - (tsec - age)) % WORD;
    LowEleven(inverted);
    dist := BitOr(BitAnd(2047, inverted), BitAnd(0x1800, v));
    OldestFirst(tsec, age);
    JoinPriority(AGES - 1 - (tsec - age) % AGES, w.pri);
    ScoreForm(w, tsec);
  }

  lemma ScoreForm(w: Word, tsec: nat)
    requires Fits(w)
    ensures Score(w, tsec) == w.pri * AGES + (AGES - 1 - (tsec - w.age) % AGES) < 0x1_0000
  {
  }

  lemma {:induction false} PackedFields(v: nat, w: Word)
    requires Fits(w) && v == Packed(w)
    ensures BitAnd(2047, v) == w.age && BitAnd(0x1800, v) == AGES * w.pri
  {
    hide BitAnd, Exp2;
    ExpEleven();
    ExpSmall();
    BitAndMask(v, 11);
    AndShift(11, 3, v);
    DivBounds(v, AGES);
    BitAndMask(v / AGES, 2);
    FieldsOf(v, w);
  }

  lemma FieldsOf(v: nat, w: Word)
    requires Fits(w) && v == Packed(w)
    ensures v % AGES == w.age && v / AGES % 4 == w.pri
  {
    var high := w.pri + 4 * (w.ptr + (if w.top then 0x4_0000 else 0));
    DivModUnique(v, AGES, high, w.age);
  }

  lemma ExpEleven()
    ensures Exp2(11) == AGES
  {
    ExpSmall();
    ExpAdd(8, 3);
  }

  lemma {:induction false} LowEleven(x: nat)
    ensures BitAnd(2047, x) == x % AGES
  {
    ExpEleven();
    BitAndMask(x, 11);
  }

  lemma OldestFirst(tsec: nat, age: nat)
    ensures (-1 - (tsec - age)) % WORD % AGES == AGES - 1 - (tsec - age) % AGES
  {
  }

  lemma {:induction false} JoinPriority(low: nat, pri: nat)
    requires low < AGES
    ensures BitOr(low, AGES * pri) == pri * AGES + low
  {
    ExpEleven();
    BitOrDisjoint(low, pri, 11);
  }

  // The loop over the eight entries finds the candidate.
  method FindCandidate(ctrl: seq<nat>, tsec: nat, ghost words: seq<Word>) returns (idx: nat)
    requires |ctrl| == |words| == 8 && tsec < AGES
    requires forall i :: 0 <= i < 8 ==> Fits(words[i]) && ctrl[i] == Packed(words[i])
    ensures IsVictim(words, tsec, idx)
  {
    hide Packed, Score;
    var top := 0xffff;
    idx := 0;
    var i := 0;
    while i < 8
      invariant 0 <= i <= 8
      invariant i == 0 ==> top == 0xffff
      invariant i > 0 ==> idx < i && top == Score(words[idx], tsec)
      invariant forall j :: 0 <= j < i ==> top <= Score(words[j], tsec)
      invariant forall j :: 0 <= j < idx && j < i ==> top < Score(words[j], tsec)
    {
      var dist := Distance(ctrl[i], tsec, words[i]);
      ScoreSmall(words[i], tsec);
      if dist < top {
        top := dist;
        idx := i;
      }
      i := i + 1;
    }
  }

  lemma ScoreSmall(w: Word, tsec: nat)
    requires Fits(w)
    ensures Score(w, tsec) < 0xffff
  {
  }

  // ----- the cores -----

  datatype Op = Insert(addr: nat) | Authorize(addr: nat, priority: nat)

  // Where a core is. A field v is the word a read-modify-write has read and not yet written.
  datatype Pc =
    | Idle
    | Testing(op: Op)
    | Spinning(op: Op)
    | Probing(op: Op)
    | Comparing(op: Op, idx: nat)
    | RaiseRead(op: Op, idx: nat)
    | RaiseWrite(op: Op, idx: nat, v: Word)
    | Allocating(op: Op, tsec: nat)
    | MarkRead(op: Op, tsec: nat)
    | MarkWrite(op: Op, tsec: nat, v: Word)
    | KeyWrite(op: Op, tsec: nat, idx: nat)
    | AgeRead(op: Op, tsec: nat, idx: nat)
    | AgeWrite(op: Op, tsec: nat, idx: nat, v: Word)
    | PriRead(op: Op, tsec: nat, idx: nat)
    | PriWrite(op: Op, tsec: nat, idx: nat, v: Word)
    | PoolCall(op: Op, tsec: nat, idx: nat)
    | PtrRead(op: Op, tsec: nat, idx: nat, ptr: nat)
    | PtrWrite(op: Op, tsec: nat, idx: nat, ptr: nat, v: Word)
    | ReleaseRead(op: Op, result: int)
    | ReleaseWrite(op: Op, result: int, v: Word)

  // Between the atomic test-and-set that succeeded and the write that releases.
  predicate Holding(pc: Pc) {
    !pc.Idle? && !pc.Testing? && !pc.Spinning?
  }

  // What a step depends on besides memory: the call a core makes next, the clock, the pool.
  datatype Choice = Choice(op: Op, tsec: nat, ptr: nat)

  predicate Callable(op: Op, bucket: nat) {
    && 0 < op.addr < WORD && BucketOf(op.addr) == bucket
    && (op.Authorize? ==> NONE < op.priority <= STATIC)
  }

  function Put(b: Bucket, idx: nat, w: Word): Bucket
    requires b.Shaped() && idx < 8
  {
    b.(words := b.words[idx := w])
  }

  function Priority(op: Op): nat {
    if op.Insert? then NONE else op.priority
  }

  predicate InRange(pc: Pc) {
    match pc
    case Comparing(_, i) => i < 8
    case RaiseRead(_, i) => i < 8
    case RaiseWrite(_, i, _) => i < 8
    case KeyWrite(_, _, i) => i < 8
    case AgeRead(_, _, i) => i < 8
    case AgeWrite(_, _, i, _) => i < 8
    case PriRead(_, _, i) => i < 8
    case PriWrite(_, _, i, _) => i < 8
    case PoolCall(_, _, i) => i < 8
    case PtrRead(_, _, i, _) => i < 8
    case PtrWrite(_, _, i, _, _) => i < 8
    case _ => true
  }

  // One step of one core on the bucket.
  function LocalStep(b: Bucket, pc: Pc, ch: Choice, bucket: nat): (Bucket, Pc)
    requires b.Shaped() && InRange(pc)
  {
    match pc
    case Idle => (b, if Callable(ch.op, bucket) then Testing(ch.op) else Idle)
    case Testing(op) =>
      // host_insert gives up when it sees the lock; host_insert_authorized only counts
      (b, if op.Insert? && b.Locked() then Idle else Spinning(op))
    case Spinning(op) =>
      // _interlockedbittestandset
      if b.Locked() then (b, pc) else (Put(b, 0, b.words[0].(top := true)), Probing(op))
    case Probing(op) =>
      var i := Probe(b.keys, op.addr);
      (b, if i < 0 then Allocating(op, ch.tsec % AGES)
          else if op.Insert? then ReleaseRead(op, i)
          else Comparing(op, i))
    case Comparing(op, i) =>
      (b, if op.Authorize? && b.words[i].pri < op.priority then RaiseRead(op, i) else ReleaseRead(op, i))
    case RaiseRead(op, i) => (b, RaiseWrite(op, i, b.words[i]))
    case RaiseWrite(op, i, v) => (Put(b, i, v.(pri := Priority(op))), ReleaseRead(op, i))
    case Allocating(op, tsec) =>
      if !b.Exhausted() then
        var i := Probe(b.keys, 0);
        (b, if i == 7 then MarkRead(op, tsec) else if i < 0 then ReleaseRead(op, -1) else KeyWrite(op, tsec, i))
      else
        var i := Victim(b.words, tsec);
        (b, if b.words[i].pri > NONE then ReleaseRead(op, -1) else KeyWrite(op, tsec, i))
    case MarkRead(op, tsec) => (b, MarkWrite(op, tsec, b.words[1]))
    case MarkWrite(op, tsec, v) => (Put(b, 1, v.(top := true)), KeyWrite(op, tsec, 7))
    case KeyWrite(op, tsec, i) => (b.(keys := b.keys[i := op.addr]), AgeRead(op, tsec, i))
    case AgeRead(op, tsec, i) => (b, AgeWrite(op, tsec, i, b.words[i]))
    case AgeWrite(op, tsec, i, v) => (Put(b, i, v.(age := tsec)), PriRead(op, tsec, i))
    case PriRead(op, tsec, i) => (b, PriWrite(op, tsec, i, b.words[i]))
    case PriWrite(op, tsec, i, v) =>
      (Put(b, i, v.(pri := Priority(op))), if op.Insert? then PoolCall(op, tsec, i) else PtrRead(op, tsec, i, 0))
    case PoolCall(op, tsec, i) => (b, PtrRead(op, tsec, i, ch.ptr % PTRS))
    case PtrRead(op, tsec, i, p) => (b, PtrWrite(op, tsec, i, p, b.words[i]))
    case PtrWrite(op, tsec, i, p, v) => (Put(b, i, v.(ptr := p)), ReleaseRead(op, i))
    case ReleaseRead(op, r) => (b, ReleaseWrite(op, r, b.words[0]))
    case ReleaseWrite(op, r, v) => (Put(b, 0, v.(top := false)), Idle)
  }

  // ----- what holds of the bucket while a given core has it -----

  // Occupied entries come first; the flag is set exactly when the last entry is taken, or about to be.
  ghost predicate Filled(b: Bucket, pc: Pc)
    requires b.Shaped()
  {
    && (forall i, j :: 0 <= i < j < 8 && b.keys[i] == 0 ==> b.keys[j] == 0)
    && (!b.Exhausted() ==> b.keys[7] == 0)
    && (b.Exhausted() ==> forall i :: 0 <= i < 8 ==> b.keys[i] != 0 || (i == 7 && pc.KeyWrite? && pc.idx == 7))
  }

  ghost predicate Sound(b: Bucket, bucket: nat)
    requires b.Shaped()
  {
    && (forall i, j :: 0 <= i < j < 8 && b.keys[i] != 0 ==> b.keys[i] != b.keys[j])
    && (forall i :: 0 <= i < 8 && b.keys[i] != 0 ==> BucketOf(b.keys[i]) == bucket)
    && (forall i :: 0 <= i < 8 && b.keys[i] == 0 ==> b.words[i].pri == NONE)
  }

  // The entry being written: its key is in place, and until its priority is written it counts as unauthorized.
  ghost predicate Entry(b: Bucket, op: Op, idx: nat, fresh_: bool)
    requires b.Shaped()
  {
    idx < 8 && b.keys[idx] == op.addr && (fresh_ ==> b.words[idx].pri == NONE)
  }

  // Its priority and age are written too.
  ghost predicate Dated(b: Bucket, op: Op, tsec: nat, idx: nat)
    requires b.Shaped()
  {
    Entry(b, op, idx, false) && b.words[idx].pri == Priority(op) && b.words[idx].age == tsec
  }

  ghost predicate Progress(b: Bucket, pc: Pc, bucket: nat)
    requires b.Shaped()
  {
    match pc
    case Probing(op) => true
    case Comparing(op, i) => op.Authorize? && Entry(b, op, i, false)
    case RaiseRead(op, i) => op.Authorize? && Entry(b, op, i, false) && b.words[i].pri < op.priority
    case RaiseWrite(op, i, v) => op.Authorize? && Entry(b, op, i, false) && v == b.words[i] && v.pri < op.priority
    case Allocating(op, tsec) => op.addr !in b.keys && tsec < AGES
    case MarkRead(op, tsec) => op.addr !in b.keys && tsec < AGES && !b.Exhausted() && FirstFree(b, 7)
    case MarkWrite(op, tsec, v) => op.addr !in b.keys && tsec < AGES && !b.Exhausted() && FirstFree(b, 7)
        && v == b.words[1]
    case KeyWrite(op, tsec, i) => op.addr !in b.keys && tsec < AGES && Vacant(b, tsec, i)
    case AgeRead(op, tsec, i) => Entry(b, op, i, true) && tsec < AGES
    case AgeWrite(op, tsec, i, v) => Entry(b, op, i, true) && v == b.words[i] && tsec < AGES
    case PriRead(op, tsec, i) => Entry(b, op, i, true) && b.words[i].age == tsec
    case PriWrite(op, tsec, i, v) => Entry(b, op, i, true) && b.words[i].age == tsec && v == b.words[i]
    case PoolCall(op, tsec, i) => op.Insert? && Entry(b, op, i, true) && b.words[i].age == tsec
    case PtrRead(op, tsec, i, p) => Dated(b, op, tsec, i) && p < PTRS && (op.Authorize? ==> p == 0)
    case PtrWrite(op, tsec, i, p, v) => Dated(b, op, tsec, i) && p < PTRS && (op.Authorize? ==> p == 0)
        && v == b.words[i]
    case ReleaseRead(op, r) => Returned(b, op, r)
    case ReleaseWrite(op, r, v) => Returned(b, op, r) && v == b.words[0]
    case _ => true
  }

  ghost predicate FirstFree(b: Bucket, i: nat)
    requires b.Shaped()
  {
    i < 8 && b.keys[i] == 0 && forall j :: 0 <= j < i ==> b.keys[j] != 0
  }

  // The entry about to be overwritten is the first free one, or, in a full bucket, the eviction candidate, and then
  // it is unauthorized.
  ghost predicate Vacant(b: Bucket, tsec: nat, i: nat)
    requires b.Shaped()
  {
    && i < 8 && b.words[i].pri == NONE
    && (FirstFree(b, i) || (b.Exhausted() && IsVictim(b.words, tsec, i)))
    && (i == 7 && FirstFree(b, 7) ==> b.Exhausted())
    && (FirstFree(b, i) && i < 7 ==> !b.Exhausted())
  }

  // The result of a finished call: the address's entry, or -1 when every entry is authorized.
  ghost predicate Returned(b: Bucket, op: Op, result: int)
    requires b.Shaped()
  {
    if result >= 0 then
      result < 8 && b.keys[result] == op.addr && (op.Authorize? ==> b.words[result].pri >= op.priority)
    else
      op.addr !in b.keys && forall i :: 0 <= i < 8 ==> b.keys[i] != 0 && b.words[i].pri > NONE
  }

  ghost predicate Consistent(b: Bucket, pc: Pc, bucket: nat) {
    && b.Shaped() && InRange(pc)
    && (Holding(pc) ==> b.Locked() && Callable(pc.op, bucket))
    && Filled(b, pc) && Sound(b, bucket) && Progress(b, pc, bucket)
  }

  // What no step takes away: an authorized entry keeps its key, and its priority does not drop.
  ghost predicate Keeps(b: Bucket, b': Bucket)
    requires b.Shaped() && b'.Shaped()
  {
    forall i :: 0 <= i < 8 && b.words[i].pri > NONE ==> b'.keys[i] == b.keys[i] && b'.words[i].pri >= b.words[i].pri
  }

  // A step changes at most one field of at most one control word, or one key.
  ghost predicate OneField(b: Bucket, b': Bucket)
    requires b.Shaped() && b'.Shaped()
  {
    && (forall i :: 0 <= i < 8 ==> SingleChange(b.words[i], b'.words[i]))
    && (forall i, j :: 0 <= i < 8 && 0 <= j < 8 && Changed(b, b', i) && Changed(b, b', j) ==> i == j)
    && (b'.keys == b.keys || b'.words == b.words)
  }

  ghost predicate Changed(b: Bucket, b': Bucket, i: nat)
    requires b.Shaped() && b'.Shaped() && i < 8
  {
    b'.keys[i] != b.keys[i] || b'.words[i] != b.words[i]
  }

  ghost predicate SingleChange(w: Word, w': Word) {
    || w' == w.(age := w'.age) || w' == w.(pri := w'.pri) || w' == w.(ptr := w'.ptr) || w' == w.(top := w'.top)
  }

  // What one step of the core that has the bucket achieves.
  ghost predicate Steps(b: Bucket, pc: Pc, ch: Choice, bucket: nat)
    requires b.Shaped() && InRange(pc)
  {
    var (b', pc') := LocalStep(b, pc, ch, bucket);
    && Consistent(b', pc', bucket) && Keeps(b, b') && OneField(b, b')
    && (Holding(pc') || (pc'.Idle? && !b'.Locked()))
  }

  lemma HolderStep(b: Bucket, pc: Pc, ch: Choice, bucket: nat)
    requires Consistent(b, pc, bucket) && Holding(pc)
    ensures Steps(b, pc, ch, bucket)
  {
    hide Steps, Consistent, LocalStep, BucketOf;
    match pc
    case Probing(_) => StepFind(b, pc, ch, bucket);
    case Comparing(_, _) => StepFind(b, pc, ch, bucket);
    case RaiseRead(_, _) => StepRead(b, pc, ch, bucket);
    case RaiseWrite(_, _, _) => StepRaise(b, pc, ch, bucket);
    case Allocating(_, _) => StepAllocate(b, pc, ch, bucket);
    case MarkRead(_, _) => StepRead(b, pc, ch, bucket);
    case MarkWrite(_, _, _) => StepMark(b, pc, ch, bucket);
    case KeyWrite(_, _, _) => StepKey(b, pc, ch, bucket);
    case AgeRead(_, _, _) => StepRead(b, pc, ch, bucket);
    case AgeWrite(_, _, _, _) => StepAge(b, pc, ch, bucket);
    case PriRead(_, _, _) => StepRead(b, pc, ch, bucket);
    case PriWrite(_, _, _, _) => StepPri(b, pc, ch, bucket);
    case PoolCall(_, _, _) => StepReadLast(b, pc, ch, bucket);
    case PtrRead(_, _, _, _) => StepReadLast(b, pc, ch, bucket);
    case PtrWrite(_, _, _, _, _) => StepPtr(b, pc, ch, bucket);
    case ReleaseRead(_, _) => StepReadLast(b, pc, ch, bucket);
    case ReleaseWrite(_, _, _) => StepRelease(b, pc, ch, bucket);
    case _ =>
  }

  lemma StepFind(b: Bucket, pc: Pc, ch: Choice, bucket: nat)
    requires Consistent(b, pc, bucket) && (pc.Probing? || pc.Comparing?)
    ensures Steps(b, pc, ch, bucket)
  {
    hide BucketOf, Probe, Score, Victim;
  }

  lemma StepRead(b: Bucket, pc: Pc, ch: Choice, bucket: nat)
    requires Consistent(b, pc, bucket)
    requires pc.RaiseRead? || pc.MarkRead? || pc.AgeRead? || pc.PriRead?
    ensures Steps(b, pc, ch, bucket)
  {
    hide BucketOf, Probe, Score, Victim;
  }

  lemma StepReadLast(b: Bucket, pc: Pc, ch: Choice, bucket: nat)
    requires Consistent(b, pc, bucket) && (pc.PoolCall? || pc.PtrRead? || pc.ReleaseRead?)
    ensures Steps(b, pc, ch, bucket)
  {
    hide BucketOf, Probe, Score, Victim;
  }

  lemma StepRaise(b: Bucket, pc: Pc, ch: Choice, bucket: nat)
    requires Consistent(b, pc, bucket) && pc.RaiseWrite?
    ensures Steps(b, pc, ch, bucket)
  {
    hide BucketOf, Probe, Score, Victim;
  }

  lemma StepAllocate(b: Bucket, pc: Pc, ch: Choice, bucket: nat)
    requires Consistent(b, pc, bucket) && pc.Allocating?
    ensures Steps(b, pc, ch, bucket)
  {
    hide BucketOf, Probe, Score, Victim;
    VictimDecides(b, pc.tsec);
  }

  lemma StepMark(b: Bucket, pc: Pc, ch: Choice, bucket: nat)
    requires Consistent(b, pc, bucket) && pc.MarkWrite?
    ensures Steps(b, pc, ch, bucket)
  {
    hide BucketOf, Probe, Score, Victim, IsVictim;
  }

  lemma StepKey(b: Bucket, pc: Pc, ch: Choice, bucket: nat)
    requires Consistent(b, pc, bucket) && pc.KeyWrite?
    ensures Steps(b, pc, ch, bucket)
  {
    hide BucketOf, Probe, Score, Victim, IsVictim;
  }

  lemma StepAge(b: Bucket, pc: Pc, ch: Choice, bucket: nat)
    requires Consistent(b, pc, bucket) && pc.AgeWrite?
    ensures Steps(b, pc, ch, bucket)
  {
    hide BucketOf, Probe, Score, Victim, IsVictim;
  }

  lemma StepPri(b: Bucket, pc: Pc, ch: Choice, bucket: nat)
    requires Consistent(b, pc, bucket) && pc.PriWrite?
    ensures Steps(b, pc, ch, bucket)
  {
    hide BucketOf, Probe, Score, Victim, IsVictim;
  }

  lemma StepPtr(b: Bucket, pc: Pc, ch: Choice, bucket: nat)
    requires Consistent(b, pc, bucket) && pc.PtrWrite?
    ensures Steps(b, pc, ch, bucket)
  {
    hide BucketOf, Probe, Score, Victim, IsVictim;
  }

  lemma StepRelease(b: Bucket, pc: Pc, ch: Choice, bucket: nat)
    requires Consistent(b, pc, bucket) && pc.ReleaseWrite?
    ensures Steps(b, pc, ch, bucket)
  {
    hide BucketOf, Probe, Score, Victim, IsVictim;
  }

  // If the candidate is authorized, every entry is.
  lemma {:induction false} VictimDecides(b: Bucket, tsec: nat)
    requires b.Shaped()
    ensures var i := Victim(b.words, tsec);
            b.words[i].pri > NONE ==> forall j :: 0 <= j < 8 ==> b.words[j].pri > NONE
  {
    hide Victim, Score;
    var i := Victim(b.words, tsec);
    forall j | 0 <= j < 8 ensures b.words[i].pri > NONE ==> b.words[j].pri > NONE {
      ScorePriority(b.words[i], b.words[j], tsec);
    }
  }

  lemma ScorePriority(w: Word, v: Word, tsec: nat)
    ensures Score(w, tsec) <= Score(v, tsec) ==> w.pri <= v.pri
  {
  }

  // ----- all the cores -----

  datatype State = State(b: Bucket, cores: seq<Pc>)

  ghost predicate Invariant(s: State, bucket: nat) {
    && s.b.Shaped()
    && (forall c :: 0 <= c < |s.cores| ==> InRange(s.cores[c]) && (s.cores[c].Idle? || Callable(s.cores[c].op, bucket)))
    // at most one core has the bucket, and everything holds for its position
    && (forall c, d :: 0 <= c < d < |s.cores| ==> !(Holding(s.cores[c]) && Holding(s.cores[d])))
    && (forall c :: 0 <= c < |s.cores| && Holding(s.cores[c]) ==> Consistent(s.b, s.cores[c], bucket))
    // otherwise the lock is free
    && ((forall c :: 0 <= c < |s.cores| ==> !Holding(s.cores[c])) ==> !s.b.Locked() && Consistent(s.b, Idle, bucket))
  }

  function Next(s: State, c: nat, ch: Choice, bucket: nat): State
    requires c < |s.cores| && s.b.Shaped() && InRange(s.cores[c])
  {
    var (b', pc') := LocalStep(s.b, s.cores[c], ch, bucket);
    State(b', s.cores[c := pc'])
  }

  lemma Acquire(b: Bucket, op: Op, bucket: nat)
    requires Consistent(b, Idle, bucket) && Callable(op, bucket)
    ensures var b' := Put(b, 0, b.words[0].(top := true));
            Consistent(b', Probing(op), bucket) && Keeps(b, b') && OneField(b, b')
  {
    hide BucketOf;
  }

  // Every step of every core keeps the invariant, changes at most one field, and takes nothing from an authorized
  // entry.
  lemma StepKeeps(s: State, c: nat, ch: Choice, bucket: nat)
    requires Invariant(s, bucket) && c < |s.cores|
    ensures var s' := Next(s, c, ch, bucket);
            Invariant(s', bucket) && Keeps(s.b, s'.b) && OneField(s.b, s'.b)
  {
    var pc, s' := s.cores[c], Next(s, c, ch, bucket);
    if Holding(pc) {
      HolderKeeps(s, c, ch, bucket);
    } else if pc.Spinning? && !s.b.Locked() {
      AcquireKeeps(s, c, ch, bucket);
    } else {
      WaiterKeeps(s, c, ch, bucket);
    }
  }

  lemma HolderKeeps(s: State, c: nat, ch: Choice, bucket: nat)
    requires Invariant(s, bucket) && c < |s.cores| && Holding(s.cores[c])
    ensures var s' := Next(s, c, ch, bucket);
            Invariant(s', bucket) && Keeps(s.b, s'.b) && OneField(s.b, s'.b)
  {
    hide Consistent, LocalStep, Keeps, OneField, BucketOf;
    ConsistentShape(s.b, s.cores[c], bucket);
    HolderStep(s.b, s.cores[c], ch, bucket);
    var (b', pc') := LocalStep(s.b, s.cores[c], ch, bucket);
    ConsistentShape(b', pc', bucket);
    assert Next(s, c, ch, bucket).cores[c] == pc';
  }

  lemma ConsistentShape(b: Bucket, pc: Pc, bucket: nat)
    requires Consistent(b, pc, bucket)
    ensures b.Shaped() && InRange(pc) && (Holding(pc) ==> Callable(pc.op, bucket) && b.Locked())
  {
  }

  lemma AcquireKeeps(s: State, c: nat, ch: Choice, bucket: nat)
    requires Invariant(s, bucket) && c < |s.cores| && s.cores[c].Spinning? && !s.b.Locked()
    ensures var s' := Next(s, c, ch, bucket);
            Invariant(s', bucket) && Keeps(s.b, s'.b) && OneField(s.b, s'.b)
  {
    hide Consistent, Keeps, OneField, BucketOf;
    forall d | 0 <= d < |s.cores| ensures !Holding(s.cores[d]) {
      if Holding(s.cores[d]) {
        ConsistentShape(s.b, s.cores[d], bucket);
      }
    }
    Acquire(s.b, s.cores[c].op, bucket);
    assert Holding(Next(s, c, ch, bucket).cores[c]);
  }

  lemma WaiterKeeps(s: State, c: nat, ch: Choice, bucket: nat)
    requires Invariant(s, bucket) && c < |s.cores| && !Holding(s.cores[c])
    requires s.cores[c].Spinning? ==> s.b.Locked()
    ensures var s' := Next(s, c, ch, bucket);
            Invariant(s', bucket) && Keeps(s.b, s'.b) && OneField(s.b, s'.b)
  {
    hide Consistent, BucketOf;
    var s' := Next(s, c, ch, bucket);
    assert s'.b == s.b && !Holding(s'.cores[c]);
    if forall d :: 0 <= d < |s'.cores| ==> !Holding(s'.cores[d]) {
      forall d | 0 <= d < |s.cores| ensures !Holding(s.cores[d]) {
        assert d != c ==> s'.cores[d] == s.cores[d];
      }
    }
  }

  // ----- runs -----

  // A run: which core steps next, and its choices.
  datatype Event = Event(core: nat, choice: Choice)

  // The cores an event can name are those that exist.
  ghost predicate Valid(n: nat, events: seq<Event>) {
    forall k :: 0 <= k < |events| ==> events[k].core < n
  }

  ghost function Run(s: State, events: seq<Event>, bucket: nat): (t: State)
    requires Invariant(s, bucket) && Valid(|s.cores|, events)
    ensures Invariant(t, bucket) && |t.cores| == |s.cores|
    decreases |events|
  {
    if events == [] then s
    else
      var prefix := Run(s, events[..|events| - 1], bucket);
      var e := events[|events| - 1];
      StepKeeps(prefix, e.core, e.choice, bucket);
      Next(prefix, e.core, e.choice, bucket)
  }

  // The table as it is allocated, and n cores that have not called anything.
  function Initial(n: nat): State {
    State(Bucket([0, 0, 0, 0, 0, 0, 0, 0], seq(8, _ => Word(0, NONE, 0, false))), seq(n, _ => Idle))
  }

  lemma InitialInvariant(n: nat, bucket: nat)
    ensures Invariant(Initial(n), bucket)
  {
    hide BucketOf;
  }

  // The reachable states: those after a run from there.
  ghost function After(n: nat, events: seq<Event>, bucket: nat): (s: State)
    requires Valid(n, events)
    ensures Invariant(s, bucket) && |s.cores| == n
  {
    InitialInvariant(n, bucket);
    Run(Initial(n), events, bucket)
  }

  // In every reachable state at most one core is between acquiring and releasing the lock, and then the lock bit is
  // set.
  lemma {:induction false} MutualExclusion(n: nat, events: seq<Event>, bucket: nat, c: nat, d: nat)
    requires Valid(n, events) && c < n && d < n
    ensures var s := After(n, events, bucket);
            Holding(s.cores[c]) ==> s.b.Locked() && (Holding(s.cores[d]) ==> c == d)
  {
    hide Consistent, After;
    var s := After(n, events, bucket);
    if Holding(s.cores[c]) {
      ConsistentShape(s.b, s.cores[c], bucket);
    }
  }

  // An authorized entry survives any run, with its key and at least its priority.
  lemma {:induction false} AuthorizedStays(s: State, events: seq<Event>, bucket: nat, i: nat)
    requires Invariant(s, bucket) && i < 8 && s.b.words[i].pri > NONE
    requires Valid(|s.cores|, events)
    ensures var t := Run(s, events, bucket);
            t.b.keys[i] == s.b.keys[i] && t.b.words[i].pri >= s.b.words[i].pri
    decreases |events|
  {
    hide Consistent, LocalStep, OneField;
    if events != [] {
      AuthorizedStays(s, events[..|events| - 1], bucket, i);
      var prefix, e := Run(s, events[..|events| - 1], bucket), events[|events| - 1];
      StepKeeps(prefix, e.core, e.choice, bucket);
    }
  }

  // The facts of the bucket that hold whoever has it.
  lemma SoundAlways(s: State, bucket: nat)
    requires Invariant(s, bucket)
    ensures s.b.Shaped() && Sound(s.b, bucket)
  {
    hide BucketOf, Progress, Filled, Sound;
    if c :| 0 <= c < |s.cores| && Holding(s.cores[c]) {
      assert Consistent(s.b, s.cores[c], bucket);
    }
  }

  // In every reachable state no address is twice in the bucket, each is in its hash's bucket, and free entries are
  // unauthorized.
  lemma {:induction false} KeysDistinct(n: nat, events: seq<Event>, bucket: nat)
    requires Valid(n, events)
    ensures var b := After(n, events, bucket).b;
            && (forall i, j :: 0 <= i < j < 8 && b.keys[i] != 0 ==> b.keys[i] != b.keys[j])
            && (forall i :: 0 <= i < 8 && b.keys[i] != 0 ==> BucketOf(b.keys[i]) == bucket)
            && (forall i :: 0 <= i < 8 && b.keys[i] == 0 ==> b.words[i].pri == NONE)
  {
    hide BucketOf, After, Consistent;
    SoundAlways(After(n, events, bucket), bucket);
  }

  // The unlocked lookup: the keys are read in one state and the priority in a later one, with any steps of any cores
  // before and between. It finds the address, at no less than the priority it had.
  lemma {:induction false} LookupSeesAuthorized(s: State, before: seq<Event>, between: seq<Event>, bucket: nat,
      addr: nat, i: nat)
    requires Invariant(s, bucket) && i < 8 && s.b.keys[i] == addr && addr != 0 && s.b.words[i].pri > NONE
    requires Valid(|s.cores|, before) && Valid(|s.cores|, between)
    ensures var t := Run(s, before, bucket);
            var idx := Probe(t.b.keys, addr);
            var u := Run(t, between, bucket);
            idx >= 0 && u.b.keys[idx] == addr && u.b.words[idx].pri >= s.b.words[i].pri
  {
    hide Run, Consistent, BucketOf;
    AuthorizedStays(s, before, bucket, i);
    var t := Run(s, before, bucket);
    SoundAlways(t, bucket);
    assert t.b.keys[i] in t.b.keys;
    var idx := Probe(t.b.keys, addr);
    AuthorizedStays(t, between, bucket, i);
  }

  // An occupied entry changes hands only by eviction from a full bucket: it is unauthorized, and the candidate.
  lemma EvictionTakesCandidate(s: State, c: nat, ch: Choice, bucket: nat, i: nat)
    requires Invariant(s, bucket) && c < |s.cores| && i < 8
    requires s.b.keys[i] != 0 && Next(s, c, ch, bucket).b.keys[i] != s.b.keys[i]
    ensures var pc := s.cores[c];
            && pc.KeyWrite? && pc.idx == i && s.b.Exhausted()
            && s.b.words[i].pri == NONE && IsVictim(s.b.words, pc.tsec, i)
  {
    hide BucketOf, IsVictim, Victim, Score, Probe;
  }

  // In every reachable state a core about to release the lock after a failure sees all eight entries authorized, and
  // none of them has its address.
  lemma {:induction false} FailureMeansAuthorized(n: nat, events: seq<Event>, bucket: nat, c: nat)
    requires Valid(n, events) && c < n
    requires var pc := After(n, events, bucket).cores[c];
             pc.ReleaseWrite? && pc.result < 0
    ensures var s := After(n, events, bucket);
            forall i :: 0 <= i < 8 ==> s.b.keys[i] != 0 && s.b.words[i].pri > NONE && s.b.keys[i] != s.cores[c].op.addr
  {
    hide BucketOf, After;
    assert Holding(After(n, events, bucket).cores[c]);
  }

  // And conversely: allocate gives up exactly when all eight entries are authorized.
  lemma {:induction false} AllocateFailsExactly(n: nat, events: seq<Event>, bucket: nat, c: nat, ch: Choice)
    requires Valid(n, events) && c < n && After(n, events, bucket).cores[c].Allocating?
    ensures var s := After(n, events, bucket);
            var pc := Next(s, c, ch, bucket).cores[c];
            (pc.ReleaseRead? && pc.result < 0) <==> (forall i :: 0 <= i < 8 ==> s.b.words[i].pri > NONE)
  {
    hide BucketOf, After, Victim, Score, Probe;
    var s := After(n, events, bucket);
    assert Holding(s.cores[c]);
    VictimDecides(s.b, s.cores[c].tsec);
  }

  // In every reachable state a core about to release the lock after a success has its address in the entry it
  // returns, authorized as asked.
  lemma {:induction false} SuccessMeansPresent(n: nat, events: seq<Event>, bucket: nat, c: nat)
    requires Valid(n, events) && c < n
    requires var pc := After(n, events, bucket).cores[c];
             pc.ReleaseWrite? && pc.result >= 0
    ensures var s := After(n, events, bucket);
            var pc := s.cores[c];
            && pc.result < 8 && s.b.keys[pc.result] == pc.op.addr
            && (pc.op.Authorize? ==> s.b.words[pc.result].pri >= pc.op.priority)
  {
    hide BucketOf, After;
    assert Holding(After(n, events, bucket).cores[c]);
  }

  // The last write of an insertion leaves the whole entry: address, age, priority and pointer, and the borrowed top
  // bit as it was.
  lemma EntryComplete(s: State, c: nat, ch: Choice, bucket: nat)
    requires Invariant(s, bucket) && c < |s.cores| && s.cores[c].PtrWrite?
    ensures var pc, t := s.cores[c], Next(s, c, ch, bucket);
            && t.b.keys[pc.idx] == pc.op.addr
            && t.b.words[pc.idx] == Word(pc.tsec, Priority(pc.op), pc.ptr, s.b.words[pc.idx].top)
            && (pc.op.Authorize? ==> pc.ptr == 0)
  {
    hide BucketOf;
  }

  // An authorization of a known address raises its priority to what was asked, and does nothing else to the bucket.
  lemma RaiseExact(s: State, c: nat, ch: Choice, bucket: nat)
    requires Invariant(s, bucket) && c < |s.cores| && s.cores[c].RaiseWrite?
    ensures var pc, t := s.cores[c], Next(s, c, ch, bucket);
            && s.b.keys[pc.idx] == pc.op.addr && s.b.words[pc.idx].pri < pc.op.priority
            && t.b == Put(s.b, pc.idx, s.b.words[pc.idx].(pri := pc.op.priority))
  {
    hide BucketOf;
  }

  // In every reachable state the exhausted flag says that the bucket is full, except between setting it and writing
  // the last key.
  lemma {:induction false} ExhaustedMeansFull(n: nat, events: seq<Event>, bucket: nat)
    requires Valid(n, events)
    requires var s := After(n, events, bucket);
             forall c :: 0 <= c < |s.cores| ==> !(s.cores[c].KeyWrite? && s.cores[c].idx == 7)
    ensures var s := After(n, events, bucket);
            s.b.Exhausted() <==> forall i :: 0 <= i < 8 ==> s.b.keys[i] != 0
  {
    hide BucketOf, Progress, Sound, After;
    var s := After(n, events, bucket);
    if c :| 0 <= c < |s.cores| && Holding(s.cores[c]) {
      assert Consistent(s.b, s.cores[c], bucket);
    }
  }
}
