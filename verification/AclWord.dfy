/** The 64-bit form of a transition, and the scalar classifier's way of finding
    the range of a byte in one 32-bit subtraction. */
module AclWord {
  import opened Basics
  import opened AclFormat

  // ----- packing

  const ADDR_LIMIT := 0x2000_0000
  const HIGH := 0x1_0000_0000

  function Code(kind: Kind): nat {
    match kind
    case Dfa => 0
    case Single => 1
    case Quad => 3
    case Match => 4
  }

  function Low(t: Transition): nat { Code(t.kind) * ADDR_LIMIT + t.addr }

  function High(lanes: Lanes): nat {
    lanes.l0 + 0x100 * lanes.l1 + 0x1_0000 * lanes.l2 + 0x100_0000 * lanes.l3
  }

  /** | node specific : 32 | node type : 3 | node address : 29 | */
  function Pack(t: Transition): nat { High(t.lanes) * HIGH + Low(t) }

  function KindOf(code: nat): Kind {
    if code == 0 then Dfa else if code == 1 then Single else if code == 3 then Quad else Match
  }

  function LanesOf(high: nat): Lanes {
    Lanes(high % 256, high / 0x100 % 256, high / 0x1_0000 % 256, high / 0x100_0000 % 256)
  }

  function Unpack(w: nat): Transition {
    Transition(LanesOf(w / HIGH), KindOf(w % HIGH / ADDR_LIMIT), w % HIGH % ADDR_LIMIT)
  }

  lemma LanesRoundTrip(lanes: Lanes)
    ensures LanesOf(High(lanes)) == lanes && High(lanes) < HIGH
  {
    var h := High(lanes);
    assert h / 0x100_0000 == lanes.l3;
    assert h / 0x1_0000 == lanes.l2 + 0x100 * lanes.l3;
    assert h / 0x100 == lanes.l1 + 0x100 * lanes.l2 + 0x1_0000 * lanes.l3;
  }

  /** Packing loses nothing exactly when the address fits its 29 bits. */
  lemma PackRoundTrip(t: Transition)
    ensures t.addr < ADDR_LIMIT ==> Pack(t) < HIGH * HIGH && Unpack(Pack(t)) == t
    ensures t.addr >= ADDR_LIMIT ==> Unpack(Pack(t)) != t
  {
    LanesRoundTrip(t.lanes);
    if t.addr < ADDR_LIMIT {
      assert Low(t) < HIGH;
      assert Pack(t) / HIGH == High(t.lanes) && Pack(t) % HIGH == Low(t);
    }
  }

  /** Where the parts of a transition are in its word: the address in the low 29 bits, then three bits of type, then
      the four bytes of the upper half, lowest first. */
  lemma PackFields(t: Transition)
    ensures var code := match t.kind case Dfa => 0 case Single => 1 case Quad => 3 case Match => 4;
      Pack(t) == t.addr + 0x2000_0000 * code + 0x1_0000_0000 * t.lanes.l0 + 0x100_0000_0000 * t.lanes.l1
        + 0x1_0000_0000_0000 * t.lanes.l2 + 0x100_0000_0000_0000 * t.lanes.l3
  {
  }

  /** The first address out of range turns a DFA node into another kind of node. */
  lemma AddressOverflows(lanes: Lanes)
    ensures Pack(Transition(lanes, Dfa, ADDR_LIMIT)) == Pack(Transition(lanes, Single, 0))
  {
  }

  function PackAll(table: seq<Transition>): (words: seq<nat>)
    ensures |words| == |table| && forall i :: 0 <= i < |table| ==> words[i] == Pack(table[i])
  {
    seq(|table|, i requires 0 <= i < |table| => Pack(table[i]))
  }

  /** One step on the packed table: take the word apart, add the offset, load. */
  function WordStep(words: seq<nat>, w: nat, b: byte): Option<nat> {
    var a := StepAddr(Unpack(w), b);
    if 0 <= a < |words| then Some(words[a]) else None
  }

  /** The packed table steps exactly as the table of records does. */
  lemma WordStepIsStep(table: seq<Transition>, t: Transition, b: byte)
    requires t.addr < ADDR_LIMIT
    ensures WordStep(PackAll(table), Pack(t), b)
         == if 0 <= StepAddr(t, b) < |table| then Some(Pack(Step(table, t, b))) else None
  {
    PackRoundTrip(t);
  }

  // ----- the scalar range search

  function Word(r0: bv8, r1: bv8, r2: bv8, r3: bv8): bv32 {
    (r0 as bv32) | ((r1 as bv32) << 8) | ((r2 as bv32) << 16) | ((r3 as bv32) << 24)
  }

  /** Compares the input with all four boundaries at once; the result has the
      top bit of byte k set when boundary k is not below the input. */
  function Flags(ranges: bv32, input: bv8): bv32 {
    var c := (input as bv32) * 0x0101_0101;
    var a := ((ranges | 0x8080_8080) - (c & 0x7f7f_7f7f)) & 0x8080_8080;
    var b := c & 0x8080_8080;
    a ^ ((ranges ^ b) & (a ^ b))
  }

  /** Index of the lowest set bit divided by eight; 4 when no bit is set. */
  function FirstByte(a: bv32): nat {
    if a & 0xff != 0 then 0
    else if a & 0xff00 != 0 then 1
    else if a & 0xff_0000 != 0 then 2
    else if a & 0xff00_0000 != 0 then 3
    else 4
  }

  function ScalarOffset(r0: bv8, r1: bv8, r2: bv8, r3: bv8, x: bv8): nat {
    FirstByte(Flags(Word(r0, r1, r2, r3), x))
  }

  /** Signed comparison of bytes. */
  predicate AtLeast(r: bv8, x: bv8) { (r ^ 0x80) >= (x ^ 0x80) }

  lemma Flag0(r0: bv8, r1: bv8, r2: bv8, r3: bv8, x: bv8)
    ensures Flags(Word(r0, r1, r2, r3), x) & 0xff != 0 <==> AtLeast(r0, x)
  {
  }

  lemma Flag1(r0: bv8, r1: bv8, r2: bv8, r3: bv8, x: bv8)
    ensures Flags(Word(r0, r1, r2, r3), x) & 0xff00 != 0 <==> AtLeast(r1, x)
  {
  }

  lemma Flag2(r0: bv8, r1: bv8, r2: bv8, r3: bv8, x: bv8)
    ensures Flags(Word(r0, r1, r2, r3), x) & 0xff_0000 != 0 <==> AtLeast(r2, x)
  {
  }

  lemma Flag3(r0: bv8, r1: bv8, r2: bv8, r3: bv8, x: bv8)
    ensures Flags(Word(r0, r1, r2, r3), x) & 0xff00_0000 != 0 <==> AtLeast(r3, x)
  {
  }

  lemma FlipIsRank(v: bv8)
    ensures (v ^ 0x80) as int == Rank(v as int)
  {
  }

  lemma AtLeastIsRank(r: bv8, x: bv8)
    ensures AtLeast(r, x) <==> Beyond(r as int, x as int) == 0
  {
    FlipIsRank(r);
    FlipIsRank(x);
  }

  /** Number of leading falses. */
  function First(f0: bool, f1: bool, f2: bool, f3: bool): nat {
    if f0 then 0 else if f1 then 1 else if f2 then 2 else if f3 then 3 else 4
  }

  lemma FirstByteIs(a: bv32, f0: bool, f1: bool, f2: bool, f3: bool)
    requires (a & 0xff != 0 <==> f0) && (a & 0xff00 != 0 <==> f1)
    requires (a & 0xff_0000 != 0 <==> f2) && (a & 0xff00_0000 != 0 <==> f3)
    ensures FirstByte(a) == First(f0, f1, f2, f3)
  {
  }

  lemma ScalarFindsFirst(r0: bv8, r1: bv8, r2: bv8, r3: bv8, x: bv8)
    ensures ScalarOffset(r0, r1, r2, r3, x) == First(AtLeast(r0, x), AtLeast(r1, x), AtLeast(r2, x), AtLeast(r3, x))
  {
    Flag0(r0, r1, r2, r3, x);
    Flag1(r0, r1, r2, r3, x);
    Flag2(r0, r1, r2, r3, x);
    Flag3(r0, r1, r2, r3, x);
    FirstByteIs(Flags(Word(r0, r1, r2, r3), x), AtLeast(r0, x), AtLeast(r1, x), AtLeast(r2, x), AtLeast(r3, x));
  }

  function AsLanes(r0: bv8, r1: bv8, r2: bv8, r3: bv8): Lanes {
    Lanes(r0 as int, r1 as int, r2 as int, r3 as int)
  }

  /** The scalar search stops at the first boundary that is not below the byte. */
  function FirstNotBelow(lanes: Lanes, b: byte): nat {
    First(Beyond(lanes.l0, b) == 0, Beyond(lanes.l1, b) == 0, Beyond(lanes.l2, b) == 0, Beyond(lanes.l3, b) == 0)
  }

  predicate Ascending(lanes: Lanes) {
    Rank(lanes.l0) <= Rank(lanes.l1) <= Rank(lanes.l2) <= Rank(lanes.l3)
  }

  lemma FirstIsCount(lanes: Lanes, b: byte)
    requires Ascending(lanes)
    ensures FirstNotBelow(lanes, b) == RangeOffset(lanes, b)
  {
  }

  lemma FirstIsNotCount(lanes: Lanes, b: byte)
    requires !Ascending(lanes)
    requires b == if Rank(lanes.l0) > Rank(lanes.l1) then lanes.l0
                  else if Rank(lanes.l1) > Rank(lanes.l2) then lanes.l1 else lanes.l2
    ensures FirstNotBelow(lanes, b) != RangeOffset(lanes, b)
  {
  }

  lemma ScalarIsFirst(r0: bv8, r1: bv8, r2: bv8, r3: bv8, x: bv8)
    ensures ScalarOffset(r0, r1, r2, r3, x) == FirstNotBelow(AsLanes(r0, r1, r2, r3), x as int)
  {
    ScalarFindsFirst(r0, r1, r2, r3, x);
    AtLeastIsRank(r0, x);
    AtLeastIsRank(r1, x);
    AtLeastIsRank(r2, x);
    AtLeastIsRank(r3, x);
  }

  ghost predicate Agrees(r0: bv8, r1: bv8, r2: bv8, r3: bv8, x: bv8) {
    ScalarOffset(r0, r1, r2, r3, x) == RangeOffset(AsLanes(r0, r1, r2, r3), x as int)
  }

  lemma Unsorted(r0: bv8, r1: bv8, r2: bv8, r3: bv8) returns (x: bv8)
    requires !Ascending(AsLanes(r0, r1, r2, r3))
    ensures !Agrees(r0, r1, r2, r3, x)
  {
    var lanes := AsLanes(r0, r1, r2, r3);
    x := if Rank(lanes.l0) > Rank(lanes.l1) then r0 else if Rank(lanes.l1) > Rank(lanes.l2) then r1 else r2;
    FirstIsNotCount(lanes, x as int);
    ScalarIsFirst(r0, r1, r2, r3, x);
  }

  /** The scalar search agrees with counting boundaries on every byte exactly
      when the boundaries are in ascending signed order. */
  lemma ScalarIsRangeLookup(r0: bv8, r1: bv8, r2: bv8, r3: bv8)
    ensures Ascending(AsLanes(r0, r1, r2, r3)) <==> forall x: bv8 :: Agrees(r0, r1, r2, r3, x)
  {
    if Ascending(AsLanes(r0, r1, r2, r3)) {
      forall x: bv8
        ensures Agrees(r0, r1, r2, r3, x)
      {
        ScalarIsFirst(r0, r1, r2, r3, x);
        FirstIsCount(AsLanes(r0, r1, r2, r3), x as int);
      }
    } else {
      var x := Unsorted(r0, r1, r2, r3);
    }
  }
}
