// The rule table: ntfe/ntfeusr.cpp (the hash), ntfw/phash.cpp (the search for a seed without collisions, by several
// threads), and ntfe/ntfe.cpp (loading and looking up).
module RuleTable {
  import opened Bytes

  const MAX_RULES: nat := 128

  datatype Option<T> = None | Some(value: T)

  // ----- signatures -----

  // A rule as the user's configuration holds it: what it matches, and what it charges.
  datatype Charges = Charges(byteScale: bv16, packetScale: bv16, synScale: bv16, byteMeter: bv8, packetMeter: bv8,
      synMeter: bv8)
  datatype ConfigRule = ConfigRule(ether: bv16, port: bv16, proto: bv8, charges: Charges)

  function Htons(x: bv16): bv16 {
    (x << 8) | (x >> 8)
  }

  // ETHER_LE16_TO_FS: bit 7 marks every stored signature
  function EtherByte(ether: bv16): bv32 {
    (((Htons(ether) >> 7) & 0xff) | 0x80) as bv32
  }

  // The 32 bits of ntfe_flowsig
  function Signature(r: ConfigRule): bv32 {
    EtherByte(r.ether) | (r.proto as bv32 << 8) | (Htons(r.port) as bv32 << 16)
  }

  // ----- the frames of the receive path -----

  // The bytes of a frame that rules look at, as they arrive: the ethertype and the destination port are big-endian.
  datatype Frame = Frame(ether0: bv8, ether1: bv8, proto: bv8, port0: bv8, port1: bv8)

  // Two bytes loaded as a little-endian word
  function Loaded(first: bv8, second: bv8): bv16 {
    (first as bv16) | (second as bv16 << 8)
  }

  // ETHER_BE16_TO_FS
  function FrameEtherByte(raw: bv16): bv32 {
    ((raw >> 7) as bv32 | 0x80) & 0xff
  }

  function FrameSignature(f: Frame): bv32 {
    FrameEtherByte(Loaded(f.ether0, f.ether1)) | (f.proto as bv32 << 8) | (Loaded(f.port0, f.port1) as bv32 << 16)
  }

  // Is the ethertype IPv4, and is the port field one: UDP, TCP or LDP
  predicate IsIp(f: Frame) {
    Loaded(f.ether0, f.ether1) == Htons(0x0800)
  }

  predicate HasPort(f: Frame) {
    f.proto == 0x11 || f.proto == 0x06 || f.proto == 0x88
  }

  // The signature ntfe_rx looks up: only the ethertype outside IPv4, no port where there is none; a port of zero is
  // dropped.
  function Received(f: Frame): Option<bv32> {
    var sig := FrameSignature(f);
    if !IsIp(f) then Some(sig & 0xff)
    else if !HasPort(f) then Some(sig & 0x0000_ffff)
    else if f.port0 == 0 && f.port1 == 0 then None
    else Some(sig & (0x0000_ffff | 0xffff_0000))
  }

  // Seven bits stand for an ethertype: its low seven but one place up, and its top bit.
  function EtherCode(ether: bv16): bv16 {
    ether.RotateLeft(1) & 0x7f
  }

  function BigEndian16(first: bv8, second: bv8): bv16 {
    (first as bv16 << 8) | (second as bv16)
  }

  // A rule means a frame by code, protocol and port, as far as the frame has them.
  predicate Matches(r: ConfigRule, f: Frame) {
    && EtherCode(r.ether) == EtherCode(BigEndian16(f.ether0, f.ether1))
    && r.proto == (if BigEndian16(f.ether0, f.ether1) == 0x0800 then f.proto else 0)
    && r.port == if BigEndian16(f.ether0, f.ether1) == 0x0800 && HasPort(f) then BigEndian16(f.port0, f.port1) else 0
  }

  // The layout of a stored signature: mark, code, protocol, and the port with its high byte first.
  lemma SignatureLayout(r: ConfigRule)
    ensures Signature(r) == 0x80 + EtherCode(r.ether) as bv32 + 0x100 * (r.proto as bv32)
                            + 0x1_0000 * ((r.port >> 8) as bv32) + 0x100_0000 * ((r.port & 0xff) as bv32)
  {
  }

  // Both sides meet: a stored signature is the received one exactly when the rule means the frame.
  lemma MatchExactly(r: ConfigRule, f: Frame)
    requires Received(f).Some?
    ensures Signature(r) == Received(f).value <==> Matches(r, f)
  {
    hide EtherByte, FrameEtherByte, EtherCode, Loaded, Htons, BigEndian16, Signature, Received, Join;
    EtherMeets(r.ether, f.ether0, f.ether1);
    PortMeets(r.port, f.port0, f.port1);
    PortMeets(0x0800, f.ether0, f.ether1);
    PortMeets(r.port, 0, 0);
    ZeroPort();
    StoredFields(r);
    ReceivedFields(f);
    var e, e' := EtherByte(r.ether), FrameEtherByte(Loaded(f.ether0, f.ether1));
    var q, q' := Htons(r.port), Loaded(f.port0, f.port1);
    FieldsDecide(e, r.proto, q, e', f.proto, q');
    FieldsDecide(e, r.proto, q, e', f.proto, 0);
    FieldsDecide(e, r.proto, q, e', 0, 0);
  }

  // The three fields of a signature
  function Join(e: bv32, p: bv8, q: bv16): bv32 {
    e | (p as bv32 << 8) | (q as bv32 << 16)
  }

  lemma StoredFields(r: ConfigRule)
    ensures Signature(r) == Join(EtherByte(r.ether), r.proto, Htons(r.port))
  {
    hide EtherByte, Htons;
  }

  lemma ReceivedFields(f: Frame)
    requires Received(f).Some?
    ensures var e := FrameEtherByte(Loaded(f.ether0, f.ether1));
            Received(f).value == if !IsIp(f) then Join(e, 0, 0)
                                 else if !HasPort(f) then Join(e, f.proto, 0)
                                 else Join(e, f.proto, Loaded(f.port0, f.port1))
  {
    hide FrameEtherByte, Loaded, IsIp, HasPort, Join, FrameSignature;
    var e := FrameEtherByte(Loaded(f.ether0, f.ether1));
    EtherMeets(0, f.ether0, f.ether1);
    FrameFields(f);
    Masked(e, f.proto, Loaded(f.port0, f.port1));
  }

  lemma FrameFields(f: Frame)
    ensures FrameSignature(f) == Join(FrameEtherByte(Loaded(f.ether0, f.ether1)), f.proto, Loaded(f.port0, f.port1))
  {
    hide FrameEtherByte, Loaded;
  }

  lemma EtherMeets(ether: bv16, first: bv8, second: bv8)
    ensures EtherByte(ether) <= 0xff && FrameEtherByte(Loaded(first, second)) <= 0xff
    ensures EtherByte(ether) == FrameEtherByte(Loaded(first, second))
            <==> EtherCode(ether) == EtherCode(BigEndian16(first, second))
  {
  }

  lemma PortMeets(port: bv16, first: bv8, second: bv8)
    ensures Htons(port) == Loaded(first, second) <==> port == BigEndian16(first, second)
  {
    hide Htons, Loaded, BigEndian16;
    HtonsTwice(port);
    HtonsTwice(BigEndian16(first, second));
    HtonsLoads(first, second);
  }

  lemma HtonsTwice(x: bv16)
    ensures Htons(Htons(x)) == x
  {
  }

  lemma HtonsLoads(first: bv8, second: bv8)
    ensures Htons(BigEndian16(first, second)) == Loaded(first, second)
  {
  }

  lemma ZeroPort()
    ensures Loaded(0, 0) == 0 && BigEndian16(0, 0) == 0
  {
  }

  lemma Masked(e: bv32, p: bv8, q: bv16)
    requires e <= 0xff
    ensures Join(e, p, q) & 0xff == Join(e, 0, 0)
    ensures Join(e, p, q) & 0x0000_ffff == Join(e, p, 0)
    ensures Join(e, p, q) & (0x0000_ffff | 0xffff_0000) == Join(e, p, q)
  {
  }

  lemma FieldsDecide(e: bv32, p: bv8, q: bv16, e': bv32, p': bv8, q': bv16)
    requires e <= 0xff && e' <= 0xff
    ensures Join(e, p, q) == Join(e', p', q') <==> e == e' && p == p' && q == q'
  {
  }

  lemma ReceivedMarked(f: Frame)
    requires Received(f).Some?
    ensures Received(f).value & 0x80 != 0
  {
  }

  // ARP, for one: stored and received as 0x8c.
  lemma ArpSignature(proto: bv8, port0: bv8, port1: bv8, charges: Charges)
    ensures Signature(ConfigRule(0x0806, 0, 0, charges)) == 0x8c
    ensures Received(Frame(0x08, 0x06, proto, port0, port1)) == Some(0x8c)
  {
  }

  // ----- the hash -----

  function Rotl17(x: bv32): bv32 {
    (x << 17) | (x >> 15)
  }

  function RuleHash(data: bv32, seed: bv32): bv32 {
    var a := Rotl17((seed + 0x165667B5) - data * 0x3D4D51C3) * 0x27D4EB2F;
    var b := (a ^ (a >> 15)) * 0x85EBCA77;
    var c := (b ^ (b >> 13)) * 0xC2B2AE3D;
    (c ^ (c >> 16)) & 0xffff
  }

  function HashNumber(data: bv32, seed: bv32): (h: nat) {
    RuleHash(data, seed) as nat
  }

  // hash & ((1 << bits) - 1)
  function Slot(data: bv32, seed: bv32, bits: nat): (i: nat)
    ensures i < Exp2(bits)
  {
    HashNumber(data, seed) % Exp2(bits)
  }

  lemma {:induction false} SlotIsMasked(data: bv32, seed: bv32, bits: nat)
    ensures BitAnd(Exp2(bits) - 1, HashNumber(data, seed)) == Slot(data, seed, bits)
  {
    BitAndMask(HashNumber(data, seed), bits);
  }

  lemma {:induction false} TableSizes(bits: nat)
    requires bits <= 7
    ensures Exp2(bits) <= MAX_RULES
  {
    ExpSmall();
  }

  lemma SignatureNonzero(r: ConfigRule)
    ensures Signature(r) != 0
  {
    hide Htons;
    var e := ((Htons(r.ether) >> 7) & 0xff);
    MarkSurvives(e);
    var low := EtherByte(r.ether);
    OrNonzero(low, r.proto as bv32 << 8, Htons(r.port) as bv32 << 16);
  }

  lemma MarkSurvives(e: bv16)
    ensures (e | 0x80) as bv32 != 0
  {
  }

  lemma OrNonzero(a: bv32, b: bv32, c: bv32)
    requires a != 0
    ensures a | b | c != 0
  {
  }

  // No two rules share a slot.
  ghost predicate CollisionFree(rules: seq<ConfigRule>, seed: bv32, bits: nat) {
    forall i, j :: 0 <= i < j < |rules| ==>
        Slot(Signature(rules[i]), seed, bits) != Slot(Signature(rules[j]), seed, bits)
  }

  // Freedom from collisions survives widening the table.
  lemma WiderIsFree(rules: seq<ConfigRule>, seed: bv32, bits: nat, wider: nat)
    requires CollisionFree(rules, seed, bits) && bits <= wider
    ensures CollisionFree(rules, seed, wider)
  {
    hide Signature, HashNumber;
    forall i, j | 0 <= i < j < |rules|
      ensures Slot(Signature(rules[i]), seed, wider) != Slot(Signature(rules[j]), seed, wider)
    {
      Narrow(HashNumber(Signature(rules[i]), seed), bits, wider);
      Narrow(HashNumber(Signature(rules[j]), seed), bits, wider);
    }
  }

  lemma {:induction false} Narrow(h: nat, bits: nat, wider: nat)
    requires bits <= wider
    ensures h % Exp2(wider) >= 0
    ensures h % Exp2(wider) % Exp2(bits) == h % Exp2(bits)
  {
    ExpAdd(bits, wider - bits);
    NarrowTerms(h, Exp2(bits), Exp2(wider - bits));
  }

  lemma NarrowTerms(h: nat, m: nat, n: nat)
    requires m >= 1 && n >= 1
    ensures h % (m * n) >= 0
    ensures h % (m * n) % m == h % m
  {
    var q, r := h / (m * n), h % (m * n);
    assert m * n >= 1;
    assert h == m * n * q + r;
    var s, t := r / m, r % m;
    assert h == m * (n * q + s) + t by {
      assert m * n * q == m * (n * q);
    }
    DivModUnique(h, m, n * q + s, t);
  }

  // ----- the table -----

  // Meter numbers are three bits wide.
  function ThreeBits(x: bv8): bv8 {
    x & 7
  }

  function Stored(c: Charges): Charges {
    c.(byteMeter := ThreeBits(c.byteMeter), packetMeter := ThreeBits(c.packetMeter), synMeter := ThreeBits(c.synMeter))
  }

  datatype Entry = Entry(sig: bv32, charges: Charges)

  const EMPTY: Entry := Entry(0, Charges(0, 0, 0, 0, 0, 0))

  function EntryOf(r: ConfigRule): Entry {
    Entry(Signature(r), Stored(r.charges))
  }

  // What a search of the rules in order would find.
  function LinearSearch(rules: seq<ConfigRule>, sig: bv32): Option<Entry> {
    if rules == [] then None
    else if Signature(rules[0]) == sig then Some(EntryOf(rules[0]))
    else LinearSearch(rules[1..], sig)
  }

  lemma {:induction false} LinearFinds(rules: seq<ConfigRule>, sig: bv32)
    ensures match LinearSearch(rules, sig)
            case None => forall i :: 0 <= i < |rules| ==> Signature(rules[i]) != sig
            case Some(e) => exists i :: 0 <= i < |rules| && Signature(rules[i]) == sig && EntryOf(rules[i]) == e
    decreases |rules|
  {
    hide Signature, Stored;
    if rules != [] {
      LinearFinds(rules[1..], sig);
      if Signature(rules[0]) != sig {
        match LinearSearch(rules[1..], sig)
        case None =>
          forall i | 0 <= i < |rules| ensures Signature(rules[i]) != sig {
            assert i > 0 ==> rules[i] == rules[1..][i - 1];
          }
        case Some(e) =>
          var i :| 0 <= i < |rules[1..]| && Signature(rules[1..][i]) == sig && EntryOf(rules[1..][i]) == e;
          assert rules[i + 1] == rules[1..][i];
      }
    }
  }

  // The table holds exactly the rules, each in its slot.
  ghost predicate Holds(table: seq<Entry>, rules: seq<ConfigRule>, seed: bv32, bits: nat) {
    && |table| == MAX_RULES && Exp2(bits) <= MAX_RULES
    && (forall i :: 0 <= i < |rules| ==> table[Slot(Signature(rules[i]), seed, bits)] == EntryOf(rules[i]))
    && (forall k :: 0 <= k < MAX_RULES && table[k].sig != 0 ==> TakenBy(rules, seed, bits, k))
  }

  ghost predicate TakenBy(rules: seq<ConfigRule>, seed: bv32, bits: nat, k: nat) {
    exists i :: 0 <= i < |rules| && Slot(Signature(rules[i]), seed, bits) == k
  }

  class Table {
    const rules: array<Entry>
    var seed: bv32
    var hashSize: nat

    ghost predicate Valid()
      reads this
    {
      rules.Length == MAX_RULES && hashSize <= 7
    }

    constructor ()
      ensures Valid() && fresh(rules)
    {
      rules := new Entry[MAX_RULES](_ => EMPTY);
      seed, hashSize := 0, 0;
    }

    // rule_insert: refuses a slot that is taken; a test run does not write.
    method Insert(r: ConfigRule, seed: bv32, bits: nat, test: bool) returns (ok: bool)
      requires Valid() && bits <= 7
      modifies rules
      ensures var slot := Slot(Signature(r), seed, bits);
              && slot < MAX_RULES
              && (ok <==> old(rules[slot]).sig == 0)
              && rules[..] == if ok && !test then old(rules[..])[slot := EntryOf(r)] else old(rules[..])
    {
      hide Signature, HashNumber, BitAnd, Exp2;
      TableSizes(bits);
      SlotIsMasked(Signature(r), seed, bits);
      var slot := BitAnd(Exp2(bits) - 1, HashNumber(Signature(r), seed));
      if rules[slot].sig != 0 {
        return false;
      }
      if test {
        return true;
      }
      rules[slot] := EntryOf(r);
      ok := true;
    }

    // The part of ntfe_configure that clears the table and loads the rules.
    method Load(list: seq<ConfigRule>, newSeed: bv32, bits: nat) returns (ok: bool)
      requires Valid() && bits <= 7
      modifies this, rules
      ensures Valid() && seed == newSeed && hashSize == bits
      ensures ok <==> CollisionFree(list, newSeed, bits)
      ensures ok ==> Holds(rules[..], list, newSeed, bits)
    {
      hide Signature, Slot, Exp2, Stored;
      forall k | 0 <= k < MAX_RULES {
        rules[k] := EMPTY;
      }
      hashSize := bits;
      seed := newSeed;
      TableSizes(bits);
      EmptyHolds(rules[..], newSeed, bits);
      assert list[..0] == [];
      var i := 0;
      while i < |list|
        invariant 0 <= i <= |list| && Valid() && seed == newSeed && hashSize == bits
        invariant CollisionFree(list[..i], newSeed, bits) && Holds(rules[..], list[..i], newSeed, bits)
      {
        ghost var before := rules[..];
        var inserted := Insert(list[i], newSeed, bits, false);
        LoadStep(before, list[..i], list[i], newSeed, bits);
        assert list[..i + 1] == list[..i] + [list[i]];
        if !inserted {
          PrefixCollides(list, i + 1, newSeed, bits);
          return false;
        }
        i := i + 1;
      }
      assert list[..i] == list;
      ok := true;
    }

    // rule_lookup
    method Lookup(sig: bv32) returns (e: Option<Entry>)
      requires Valid()
      ensures Slot(sig, seed, hashSize) < MAX_RULES
      ensures e == var found := rules[Slot(sig, seed, hashSize)]; if found.sig == sig then Some(found) else None
    {
      hide HashNumber, BitAnd, Exp2;
      TableSizes(hashSize);
      SlotIsMasked(sig, seed, hashSize);
      var found := rules[BitAnd(Exp2(hashSize) - 1, HashNumber(sig, seed))];
      e := if found.sig == sig then Some(found) else None;
    }

    // After a load, looking up a signature with the mark finds what a linear search of the list would.
    method LoadThenLookup(list: seq<ConfigRule>, newSeed: bv32, bits: nat, sig: bv32) returns (e: Option<Entry>)
      requires Valid() && bits <= 7 && CollisionFree(list, newSeed, bits) && sig & 0x80 != 0
      modifies this, rules
      ensures e == LinearSearch(list, sig)
    {
      hide CollisionFree, Holds, LinearSearch, Slot;
      var _ := Load(list, newSeed, bits);
      e := Lookup(sig);
      MarkedSignature(sig);
      LookupIsLinear(rules[..], list, newSeed, bits, sig);
    }

    // After a load, the receive path finds a rule for a frame exactly when the list has one that means it, and the
    // charges are that rule's.
    method LoadThenReceive(list: seq<ConfigRule>, newSeed: bv32, bits: nat, f: Frame) returns (e: Option<Entry>)
      requires Valid() && bits <= 7 && CollisionFree(list, newSeed, bits) && Received(f).Some?
      modifies this, rules
      ensures e.None? <==> forall i :: 0 <= i < |list| ==> !Matches(list[i], f)
      ensures e.Some? ==>
                exists i :: 0 <= i < |list| && Matches(list[i], f) && Copied(e.value.charges, list[i].charges)
    {
      hide CollisionFree, Received, Matches, LinearSearch, Signature, Stored;
      ReceivedMarked(f);
      e := LoadThenLookup(list, newSeed, bits, Received(f).value);
      LinearFinds(list, Received(f).value);
      forall i | 0 <= i < |list| ensures Signature(list[i]) == Received(f).value <==> Matches(list[i], f) {
        MatchExactly(list[i], f);
      }
      if e.Some? {
        var i :| 0 <= i < |list| && Signature(list[i]) == Received(f).value && EntryOf(list[i]) == e.value;
        StoredCopies(list[i].charges);
      }
    }
  }

  // The scales as they are, the meters modulo eight.
  predicate Copied(c: Charges, d: Charges) {
    && c.byteScale == d.byteScale && c.packetScale == d.packetScale && c.synScale == d.synScale
    && c.byteMeter == d.byteMeter % 8 && c.packetMeter == d.packetMeter % 8 && c.synMeter == d.synMeter % 8
  }

  lemma StoredCopies(c: Charges)
    ensures Copied(Stored(c), c)
  {
  }

  lemma MarkedSignature(sig: bv32)
    requires sig & 0x80 != 0
    ensures sig != 0
  {
  }

  lemma {:induction false} EmptyHolds(table: seq<Entry>, seed: bv32, bits: nat)
    requires |table| == MAX_RULES && Exp2(bits) <= MAX_RULES && forall k :: 0 <= k < MAX_RULES ==> table[k] == EMPTY
    ensures Holds(table, [], seed, bits) && CollisionFree([], seed, bits)
  {
  }

  // One more rule: its slot is free exactly when it collides with none before it.
  lemma LoadStep(table: seq<Entry>, rules: seq<ConfigRule>, r: ConfigRule, seed: bv32, bits: nat)
    requires CollisionFree(rules, seed, bits) && Holds(table, rules, seed, bits)
    ensures var slot, more := Slot(Signature(r), seed, bits), rules + [r];
            && slot < MAX_RULES
            && (table[slot].sig == 0 <==> CollisionFree(more, seed, bits))
            && (table[slot].sig == 0 ==> Holds(table[slot := EntryOf(r)], more, seed, bits))
  {
    hide Signature, HashNumber, Exp2, Stored;
    var slot, more := Slot(Signature(r), seed, bits), rules + [r];
    if table[slot].sig != 0 {
      var i :| 0 <= i < |rules| && Slot(Signature(rules[i]), seed, bits) == slot;
      assert more[i] == rules[i] && more[|rules|] == r;
    } else {
      forall i | 0 <= i < |rules| ensures Slot(Signature(rules[i]), seed, bits) != slot {
        SignatureNonzero(rules[i]);
      }
      var next := table[slot := EntryOf(r)];
      forall k | 0 <= k < MAX_RULES && next[k].sig != 0 ensures TakenBy(more, seed, bits, k) {
        if k == slot {
          assert Slot(Signature(more[|rules|]), seed, bits) == k;
        } else {
          var i :| 0 <= i < |rules| && Slot(Signature(rules[i]), seed, bits) == k;
          assert more[i] == rules[i];
        }
      }
    }
  }

  lemma PrefixCollides(rules: seq<ConfigRule>, n: nat, seed: bv32, bits: nat)
    requires n <= |rules| && !CollisionFree(rules[..n], seed, bits)
    ensures !CollisionFree(rules, seed, bits)
  {
    hide Signature, Slot;
    var i, j :| 0 <= i < j < n
        && Slot(Signature(rules[..n][i]), seed, bits) == Slot(Signature(rules[..n][j]), seed, bits);
    assert rules[..n][i] == rules[i] && rules[..n][j] == rules[j];
  }

  // Whatever is in a slot is one of the rules.
  lemma SlotContents(table: seq<Entry>, rules: seq<ConfigRule>, seed: bv32, bits: nat, k: nat)
    requires Holds(table, rules, seed, bits) && k < MAX_RULES && table[k].sig != 0
    ensures exists i :: 0 <= i < |rules| && table[k].sig == Signature(rules[i])
  {
    hide Signature, HashNumber, Exp2, Stored;
    var i :| 0 <= i < |rules| && Slot(Signature(rules[i]), seed, bits) == k;
    assert table[k] == EntryOf(rules[i]);
  }

  // A lookup agrees with the linear search for every signature except the zero one in an empty slot, where the
  // zero-filled entry compares equal.
  lemma {:induction false} LookupIsLinear(table: seq<Entry>, rules: seq<ConfigRule>, seed: bv32, bits: nat, sig: bv32)
    requires CollisionFree(rules, seed, bits) && Holds(table, rules, seed, bits)
    ensures Slot(sig, seed, bits) < MAX_RULES
    ensures var found := table[Slot(sig, seed, bits)];
            LinearSearch(rules, sig) == (if found.sig == sig then Some(found) else None)
            <==> sig != 0 || found.sig != 0
  {
    hide Signature, HashNumber, Exp2, Stored, LinearSearch;
    LinearFinds(rules, sig);
    var k := Slot(sig, seed, bits);
    if table[k].sig != 0 {
      SlotContents(table, rules, seed, bits, k);
    }
    match LinearSearch(rules, sig)
    case None =>
    case Some(e) =>
      var i :| 0 <= i < |rules| && Signature(rules[i]) == sig && EntryOf(rules[i]) == e;
      SignatureNonzero(rules[i]);
      assert table[k] == e;
  }

  // ----- the search for a seed -----

  // The inner loop of ThreadEntry: mark each rule's slot, give up at the first one already marked.
  method TrySeed(rules: seq<ConfigRule>, seed: bv32, bits: nat) returns (free: bool)
    requires bits <= 7
    ensures free <==> CollisionFree(rules, seed, bits)
  {
    hide Signature, HashNumber, BitAnd, Exp2;
    TableSizes(bits);
    var table := new bool[MAX_RULES](_ => false);
    assert rules[..0] == [];
    var i := 0;
    while i < |rules|
      invariant 0 <= i <= |rules|
      invariant CollisionFree(rules[..i], seed, bits)
      invariant forall k :: 0 <= k < MAX_RULES ==> (table[k] <==> TakenBy(rules[..i], seed, bits, k))
    {
      SlotIsMasked(Signature(rules[i]), seed, bits);
      var h := BitAnd(Exp2(bits) - 1, HashNumber(Signature(rules[i]), seed));
      assert rules[..i + 1] == rules[..i] + [rules[i]];
      TakenStep(rules[..i], rules[i], seed, bits);
      if table[h] {
        PrefixCollides(rules, i + 1, seed, bits);
        return false;
      }
      table[h] := true;
      i := i + 1;
    }
    assert rules[..i] == rules;
    free := true;
  }

  lemma TakenStep(rules: seq<ConfigRule>, r: ConfigRule, seed: bv32, bits: nat)
    requires CollisionFree(rules, seed, bits)
    ensures var slot, more := Slot(Signature(r), seed, bits), rules + [r];
            && (CollisionFree(more, seed, bits) <==> !TakenBy(rules, seed, bits, slot))
            && forall k :: TakenBy(more, seed, bits, k) <==> TakenBy(rules, seed, bits, k) || k == slot
  {
    hide Signature, Slot;
    var slot, more := Slot(Signature(r), seed, bits), rules + [r];
    assert more[|rules|] == r;
    forall k | TakenBy(rules, seed, bits, k) ensures TakenBy(more, seed, bits, k) {
      var i :| 0 <= i < |rules| && Slot(Signature(rules[i]), seed, bits) == k;
      assert more[i] == rules[i];
    }
    if TakenBy(rules, seed, bits, slot) {
      var i :| 0 <= i < |rules| && Slot(Signature(rules[i]), seed, bits) == slot;
      assert more[i] == rules[i];
    }
  }

  // A searching thread: it has seen the record above the target; it has a width and a seed to try; it has lowered the
  // record and not yet stored its seed.
  datatype Thread =
    | Looping
    | Above
    | Trying(seed: bv32, bits: nat)
    | Storing(seed: bv32)

  datatype Search = Search(bits: nat, seed: bv32, threads: seq<Thread>)

  const START_BITS: nat := 8

  // One memory access of thread t, with the next random number.
  ghost function SearchStep(s: Search, t: nat, random: bv32, rules: seq<ConfigRule>, target: nat): Search
    requires t < |s.threads|
  {
    match s.threads[t]
    case Looping => if s.bits > target then s.(threads := s.threads[t := Above]) else s
    case Above => if s.bits > 0 then s.(threads := s.threads[t := Trying(random, s.bits - 1)]) else s
    case Trying(seed, bits) =>
      // _InterlockedCompareExchange(&record_bits, bits, bits + 1)
      if !CollisionFree(rules, seed, bits) || s.bits != bits + 1 then s.(threads := s.threads[t := Looping])
      else s.(bits := bits, threads := s.threads[t := Storing(seed)])
    case Storing(seed) => s.(seed := seed, threads := s.threads[t := Looping])
  }

  datatype Turn = Turn(thread: nat, random: bv32)

  ghost function SearchRun(threads: nat, turns: seq<Turn>, rules: seq<ConfigRule>, target: nat): (s: Search)
    requires forall k :: 0 <= k < |turns| ==> turns[k].thread < threads
    ensures |s.threads| == threads
    decreases |turns|
  {
    if turns == [] then Search(START_BITS, 0, seq(threads, _ => Looping))
    else
      var t := turns[|turns| - 1];
      SearchStep(SearchRun(threads, turns[..|turns| - 1], rules, target), t.thread, t.random, rules, target)
  }

  // No thread lowers the record while another has yet to store its seed: the two accesses act as one.
  ghost predicate Together(threads: nat, turns: seq<Turn>, rules: seq<ConfigRule>, target: nat)
    requires forall k :: 0 <= k < |turns| ==> turns[k].thread < threads
    decreases |turns|
  {
    turns == [] ||
    (Together(threads, turns[..|turns| - 1], rules, target)
     && var s := SearchRun(threads, turns[..|turns| - 1], rules, target);
        s.threads[turns[|turns| - 1].thread].Trying? ==> forall t :: 0 <= t < threads ==> !s.threads[t].Storing?)
  }

  // The record is free of collisions once its seed is stored.
  ghost predicate GoodRecord(s: Search, rules: seq<ConfigRule>) {
    && s.bits <= START_BITS
    && (forall t :: 0 <= t < |s.threads| && s.threads[t].Trying? ==> s.threads[t].bits < START_BITS)
    && (forall t, u :: 0 <= t < u < |s.threads| ==> !(s.threads[t].Storing? && s.threads[u].Storing?))
    && (forall t :: 0 <= t < |s.threads| && s.threads[t].Storing? ==>
        s.bits < START_BITS && CollisionFree(rules, s.threads[t].seed, s.bits))
    && (s.bits < START_BITS && (forall t :: 0 <= t < |s.threads| ==> !s.threads[t].Storing?) ==>
        CollisionFree(rules, s.seed, s.bits))
  }

  lemma SearchStepGood(s: Search, t: nat, random: bv32, rules: seq<ConfigRule>, target: nat)
    requires GoodRecord(s, rules) && t < |s.threads|
    requires s.threads[t].Trying? ==> forall u :: 0 <= u < |s.threads| ==> !s.threads[u].Storing?
    ensures GoodRecord(SearchStep(s, t, random, rules, target), rules)
  {
    hide CollisionFree;
    var s' := SearchStep(s, t, random, rules, target);
    assert forall u :: 0 <= u < |s.threads| && u != t ==> s'.threads[u] == s.threads[u];
    assert s'.threads[t].Storing? || !s'.threads[t].Storing?;
    if s.threads[t].Looping? || s.threads[t].Above? {
      if forall u :: 0 <= u < |s.threads| ==> !s'.threads[u].Storing? {
        forall u | 0 <= u < |s.threads| ensures !s.threads[u].Storing? {
          assert !s'.threads[u].Storing?;
        }
      }
    }
  }

  lemma {:induction false} SearchGood(threads: nat, turns: seq<Turn>, rules: seq<ConfigRule>, target: nat)
    requires forall k :: 0 <= k < |turns| ==> turns[k].thread < threads
    requires Together(threads, turns, rules, target)
    ensures GoodRecord(SearchRun(threads, turns, rules, target), rules)
    decreases |turns|
  {
    hide CollisionFree, SearchStep;
    if turns != [] {
      SearchGood(threads, turns[..|turns| - 1], rules, target);
      var t := turns[|turns| - 1];
      SearchStepGood(SearchRun(threads, turns[..|turns| - 1], rules, target), t.thread, t.random, rules, target);
    }
  }

  // One thread alone always acts as if the two accesses were one.
  lemma {:induction false} OneThreadTogether(threads: nat, turns: seq<Turn>, rules: seq<ConfigRule>, target: nat)
    requires threads <= 1 && forall k :: 0 <= k < |turns| ==> turns[k].thread < threads
    ensures Together(threads, turns, rules, target)
    decreases |turns|
  {
    hide SearchStep;
    if turns != [] {
      OneThreadTogether(threads, turns[..|turns| - 1], rules, target);
    }
  }

  // The exchange lets the record fall only, by one bit at a time, and only to where the seed is free of collisions.
  lemma RecordOnlyFalls(s: Search, t: nat, random: bv32, rules: seq<ConfigRule>, target: nat)
    requires t < |s.threads|
    ensures var next := SearchStep(s, t, random, rules, target);
            && next.bits <= s.bits <= next.bits + 1
            && (next.bits != s.bits ==>
                  next.threads[t].Storing? && CollisionFree(rules, next.threads[t].seed, next.bits))
  {
    hide CollisionFree;
  }

  // A lone thread lowers the record one bit at a time, never below the target.
  lemma {:induction false} LoneThreadStops(turns: seq<Turn>, rules: seq<ConfigRule>, target: nat)
    requires target < START_BITS && forall k :: 0 <= k < |turns| ==> turns[k].thread < 1
    ensures var s := SearchRun(1, turns, rules, target);
            && s.bits >= target && (s.threads[0].Above? ==> s.bits > target)
            && (s.threads[0].Trying? ==> s.threads[0].bits + 1 == s.bits > target)
    decreases |turns|
  {
    hide CollisionFree;
    if turns != [] {
      LoneThreadStops(turns[..|turns| - 1], rules, target);
    }
  }

  // FindRuleMagic reports a result when every thread has finished its turn and the record is below its start.
  ghost predicate Found(s: Search) {
    s.bits < START_BITS && forall t :: 0 <= t < |s.threads| ==> !s.threads[t].Storing?
  }

  // What the search reports, loads, and answers every marked signature like a linear search.
  lemma {:induction false} FoundSeedIsFree(threads: nat, turns: seq<Turn>, rules: seq<ConfigRule>, target: nat)
    requires forall k :: 0 <= k < |turns| ==> turns[k].thread < threads
    requires Together(threads, turns, rules, target) && Found(SearchRun(threads, turns, rules, target))
    ensures var s := SearchRun(threads, turns, rules, target);
            s.bits <= 7 && CollisionFree(rules, s.seed, s.bits)
  {
    hide CollisionFree, SearchRun, Together;
    SearchGood(threads, turns, rules, target);
  }

  // The search of one program and the load of the other, for any number of threads.
  method SearchThenLoad(table: Table, ghost threads: nat, ghost turns: seq<Turn>, rules: seq<ConfigRule>,
                        ghost target: nat, seed: bv32, bits: nat)
    returns (ok: bool)
    requires table.Valid()
    requires forall k :: 0 <= k < |turns| ==> turns[k].thread < threads
    requires Together(threads, turns, rules, target)
    requires var s := SearchRun(threads, turns, rules, target); Found(s) && seed == s.seed && bits == s.bits
    modifies table, table.rules
    ensures ok && Holds(table.rules[..], rules, seed, bits)
  {
    hide CollisionFree, Holds, SearchRun, Together;
    FoundSeedIsFree(threads, turns, rules, target);
    ok := table.Load(rules, seed, bits);
  }

  // ----- the race between lowering the record and storing its seed -----

  const WEB: ConfigRule := ConfigRule(0x0800, 80, 6, Charges(0, 0, 0, 0, 0, 0))
  const DNS: ConfigRule := ConfigRule(0x0800, 53, 17, Charges(0, 0, 0, 0, 0, 0))

  lemma TwoSignatures()
    ensures Signature(WEB) == 0x5000_0680 && Signature(DNS) == 0x3500_1180
  {
  }

  lemma FourHashes()
    ensures HashNumber(0x5000_0680, 69) == 0x4bcb && HashNumber(0x3500_1180, 69) == 0x3e0b
    ensures HashNumber(0x5000_0680, 0) == 0xa0fd && HashNumber(0x3500_1180, 0) == 0xb6e9
  {
  }

  lemma PairSlots()
    ensures CollisionFree([WEB, DNS], 69, 7) && CollisionFree([WEB, DNS], 0, 6) && !CollisionFree([WEB, DNS], 69, 6)
  {
    TwoSignatures();
    FourHashes();
    ExpSmall();
    hide Signature, HashNumber, Exp2;
    PairFree(69, 7);
    PairFree(0, 6);
    PairFree(69, 6);
  }

  lemma PairFree(seed: bv32, bits: nat)
    ensures CollisionFree([WEB, DNS], seed, bits)
            <==> Slot(Signature(WEB), seed, bits) != Slot(Signature(DNS), seed, bits)
  {
    hide Signature, Slot;
    var pair := [WEB, DNS];
    assert pair[0] == WEB && pair[1] == DNS;
  }

  ghost predicate ValidTurns(threads: nat, turns: seq<Turn>) {
    forall k :: 0 <= k < |turns| ==> turns[k].thread < threads
  }

  ghost function AfterTurns(threads: nat, turns: seq<Turn>, rules: seq<ConfigRule>, target: nat): (s: Search)
    requires ValidTurns(threads, turns)
    ensures |s.threads| == threads
  {
    SearchRun(threads, turns, rules, target)
  }

  lemma OneTurn(threads: nat, turns: seq<Turn>, t: nat, random: bv32, rules: seq<ConfigRule>, target: nat)
    returns (more: seq<Turn>)
    requires ValidTurns(threads, turns) && t < threads
    ensures ValidTurns(threads, more)
    ensures AfterTurns(threads, more, rules, target)
            == SearchStep(AfterTurns(threads, turns, rules, target), t, random, rules, target)
  {
    hide SearchStep;
    more := turns + [Turn(t, random)];
    assert more[..|turns|] == turns;
  }

  lemma NoTurns(threads: nat, rules: seq<ConfigRule>, target: nat)
    ensures var s := AfterTurns(threads, [], rules, target);
            s.bits == START_BITS && forall t :: 0 <= t < threads ==> s.threads[t] == Looping
  {
  }

  // Thread 0 lowers the record to 7 with a seed that works for 7 bits; thread 1 lowers it to 6 and stores its own;
  // then thread 0 stores its seed, which does not work for 6.
  lemma RaceRun(threads: nat) returns (turns: seq<Turn>)
    requires threads >= 2
    ensures ValidTurns(threads, turns)
    ensures var s := AfterTurns(threads, turns, [WEB, DNS], 2);
            Found(s) && !CollisionFree([WEB, DNS], s.seed, s.bits)
  {
    hide AfterTurns, CollisionFree;
    var pair := [WEB, DNS];
    PairSlots();
    NoTurns(threads, pair, 2);
    turns := OneTurn(threads, [], 0, 0, pair, 2);
    turns := OneTurn(threads, turns, 0, 69, pair, 2);
    turns := OneTurn(threads, turns, 0, 0, pair, 2);
    turns := OneTurn(threads, turns, 1, 0, pair, 2);
    turns := OneTurn(threads, turns, 1, 0, pair, 2);
    turns := OneTurn(threads, turns, 1, 0, pair, 2);
    turns := OneTurn(threads, turns, 1, 0, pair, 2);
    turns := OneTurn(threads, turns, 0, 0, pair, 2);
  }

  // Whatever is reported is free of collisions, for every list, random choice and interleaving.
  ghost predicate SearchSafe(threads: nat) {
    forall turns: seq<Turn>, rules: seq<ConfigRule>, target: nat ::
      ValidTurns(threads, turns) && Found(AfterTurns(threads, turns, rules, target)) ==>
        var s := AfterTurns(threads, turns, rules, target); CollisionFree(rules, s.seed, s.bits)
  }

  // The code as it stands, with its two separate accesses, is safe exactly for a single thread.
  lemma SearchSafeExactly(threads: nat)
    ensures SearchSafe(threads) <==> threads <= 1
  {
    hide AfterTurns, CollisionFree, Found;
    if threads <= 1 {
      forall turns: seq<Turn>, rules: seq<ConfigRule>, target: nat
        | ValidTurns(threads, turns) && Found(AfterTurns(threads, turns, rules, target))
        ensures var s := AfterTurns(threads, turns, rules, target); CollisionFree(rules, s.seed, s.bits)
      {
        LoneThread(threads, turns, rules, target);
      }
    } else {
      var turns := RaceRun(threads);
      assert ValidTurns(threads, turns) && Found(AfterTurns(threads, turns, [WEB, DNS], 2));
    }
  }

  lemma LoneThread(threads: nat, turns: seq<Turn>, rules: seq<ConfigRule>, target: nat)
    requires threads <= 1 && ValidTurns(threads, turns) && Found(AfterTurns(threads, turns, rules, target))
    ensures var s := AfterTurns(threads, turns, rules, target); CollisionFree(rules, s.seed, s.bits)
  {
    hide CollisionFree, SearchRun, Together;
    OneThreadTogether(threads, turns, rules, target);
    FoundSeedIsFree(threads, turns, rules, target);
  }
}
