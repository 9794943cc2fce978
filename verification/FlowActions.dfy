/** The flow actions table handler: packets one by one, four by four, and by mask. */
module FlowActions {
  import opened Basics
  import opened BitMask
  import opened FlowMeter

  // ----- four packets

  /** One packet's effect on the slots, and what is done with the packet. */
  function Work<M>(slots: seq<Slot<M>>, a: nat, env: Env<M>, p: Packet): (r: seq<Slot<M>>)
    requires a < |slots| && Known(env.classes, p)
    ensures |r| == |slots|
  {
    StatAt(MeterAt(slots, a, env, p), a, Verdict(slots, a, env, p).1)
  }

  function ActionAt<M>(slots: seq<Slot<M>>, a: nat, env: Env<M>, p: Packet): Action
    requires a < |slots| && Known(env.classes, p)
  {
    slots[a].policer.At(Verdict(slots, a, env, p).1)
  }

  ghost function Apply<M>(st: State<M>, i: nat, slots: seq<Slot<M>>, act: Action): (r: State<M>)
    requires i < |st.pkts|
    ensures r.slots == slots && |r.pkts| == |st.pkts|
  {
    State(slots, st.pkts[i := st.pkts[i].(color := act.color)], if act.drop then st.drops + {i} else st.drops)
  }

  lemma StepIsWork<M>(st: State<M>, i: nat, entries: seq<nat>, env: Env<M>)
    requires Ready(st, i, entries, env)
    ensures var p := st.pkts[i]; var a := SlotOf(env, entries[i], p);
      a < |st.slots| && Step(st, i, entries, env) ==
        Apply(st, i, Work(st.slots, a, env, p), ActionAt(st.slots, a, env, p))
  {
  }

  /** All four metered before any is counted: the slots and the actions come out the same. */
  lemma FourWorks<M>(s: seq<Slot<M>>, a0: nat, a1: nat, a2: nat, a3: nat, env: Env<M>, p0: Packet, p1: Packet,
      p2: Packet, p3: Packet)
    requires a0 < |s| && a1 < |s| && a2 < |s| && a3 < |s|
    requires Known(env.classes, p0) && Known(env.classes, p1) && Known(env.classes, p2) && Known(env.classes, p3)
    ensures
      var m1 := MeterAt(s, a0, env, p0);
      var m2 := MeterAt(m1, a1, env, p1);
      var m3 := MeterAt(m2, a2, env, p2);
      var m4 := MeterAt(m3, a3, env, p3);
      var c0, c1, c2, c3 := Verdict(s, a0, env, p0).1, Verdict(m1, a1, env, p1).1, Verdict(m2, a2, env, p2).1,
        Verdict(m3, a3, env, p3).1;
      var w1 := Work(s, a0, env, p0);
      var w2 := Work(w1, a1, env, p1);
      var w3 := Work(w2, a2, env, p2);
      && Work(w3, a3, env, p3) == StatAt(StatAt(StatAt(StatAt(m4, a0, c0), a1, c1), a2, c2), a3, c3)
      && ActionAt(s, a0, env, p0) == m4[a0].policer.At(c0) && ActionAt(w1, a1, env, p1) == m4[a1].policer.At(c1)
      && ActionAt(w2, a2, env, p2) == m4[a2].policer.At(c2) && ActionAt(w3, a3, env, p3) == m4[a3].policer.At(c3)
  {
    var m1 := MeterAt(s, a0, env, p0);
    var m2 := MeterAt(m1, a1, env, p1);
    var m3 := MeterAt(m2, a2, env, p2);
    var c0, c1, c2 := Verdict(s, a0, env, p0).1, Verdict(m1, a1, env, p1).1, Verdict(m2, a2, env, p2).1;
    Past1(m1, a0, c0, a1, env, p1);
    Past2(m2, a0, c0, a1, c1, a2, env, p2);
    Past3(m3, a0, c0, a1, c1, a2, c2, a3, env, p3);
  }

  ghost predicate FourReady<M>(st: State<M>, i: nat, entries: seq<nat>, env: Env<M>) {
    Ready(st, i, entries, env) && Ready(st, i + 1, entries, env) && Ready(st, i + 2, entries, env) &&
      Ready(st, i + 3, entries, env)
  }

  /** Four packets one after the other. */
  ghost function FourSteps<M>(st: State<M>, i: nat, entries: seq<nat>, env: Env<M>): (r: State<M>)
    requires FourReady(st, i, entries, env)
    ensures |r.slots| == |st.slots| && |r.pkts| == |st.pkts|
  {
    var s1 := Step(st, i, entries, env);
    var s2 := Step(s1, i + 1, entries, env);
    var s3 := Step(s2, i + 2, entries, env);
    Step(s3, i + 3, entries, env)
  }

  /** What the four packets become. */
  ghost function ApplyFour<M>(st: State<M>, i: nat, slots: seq<Slot<M>>, b0: Action, b1: Action, b2: Action,
      b3: Action): State<M>
    requires i + 4 <= |st.pkts|
  {
    Apply(Apply(Apply(Apply(st, i, slots, b0), i + 1, slots, b1), i + 2, slots, b2), i + 3, slots, b3)
  }

  lemma FourStepsAre<M>(st: State<M>, i: nat, entries: seq<nat>, env: Env<M>, a0: nat, a1: nat, a2: nat, a3: nat)
    requires FourReady(st, i, entries, env)
    requires a0 == SlotOf(env, entries[i], st.pkts[i]) && a1 == SlotOf(env, entries[i + 1], st.pkts[i + 1])
    requires a2 == SlotOf(env, entries[i + 2], st.pkts[i + 2]) && a3 == SlotOf(env, entries[i + 3], st.pkts[i + 3])
    ensures a0 < |st.slots| && a1 < |st.slots| && a2 < |st.slots| && a3 < |st.slots|
    ensures var s, p0, p1, p2, p3 := st.slots, st.pkts[i], st.pkts[i + 1], st.pkts[i + 2], st.pkts[i + 3];
      var w1 := Work(s, a0, env, p0);
      var w2 := Work(w1, a1, env, p1);
      var w3 := Work(w2, a2, env, p2);
      FourSteps(st, i, entries, env) == ApplyFour(st, i, Work(w3, a3, env, p3),
        ActionAt(s, a0, env, p0), ActionAt(w1, a1, env, p1), ActionAt(w2, a2, env, p2), ActionAt(w3, a3, env, p3))
  {
    var s1 := Step(st, i, entries, env);
    var s2 := Step(s1, i + 1, entries, env);
    var s3 := Step(s2, i + 2, entries, env);
    StepIsWork(st, i, entries, env);
    StepIsWork(s1, i + 1, entries, env);
    StepIsWork(s2, i + 2, entries, env);
    StepIsWork(s3, i + 3, entries, env);
  }

  // ----- the mask of packets kept

  /** A packet's bit is still set exactly when it came in and was not dropped. */
  ghost predicate Kept(mask: nat, out: nat, drops: set<nat>) {
    forall j: nat :: Bit(out, j) == (Bit(mask, j) && j !in drops)
  }

  lemma {:induction false} SmallBit(d: nat, k: nat)
    requires d < 2
    ensures Bit(d, k) == (d == 1 && k == 0)
  {
    if k != 0 {
      BitZero(k - 1);
    }
  }

  lemma KeptOne(mask: nat, out: nat, drops: set<nat>, i: nat, d: nat)
    requires Kept(mask, out, drops) && Bit(mask, i) && i !in drops && d < 2
    ensures Kept(mask, Xor(out, Shl(d, i)), if d == 1 then drops + {i} else drops)
  {
    var out' := Xor(out, Shl(d, i));
    var drops' := if d == 1 then drops + {i} else drops;
    forall j: nat ensures Bit(out', j) == (Bit(mask, j) && j !in drops') {
      BitXor(out, Shl(d, i), j);
      BitShl(d, i, j);
      if j >= i {
        SmallBit(d, j - i);
      }
    }
  }

  function Bits4(d0: nat, d1: nat, d2: nat, d3: nat): nat { d0 + 2 * (d1 + 2 * (d2 + 2 * d3)) }

  lemma Bits4At(d0: nat, d1: nat, d2: nat, d3: nat, k: nat)
    requires d0 < 2 && d1 < 2 && d2 < 2 && d3 < 2
    ensures Bit(Bits4(d0, d1, d2, d3), k)
         == ((k == 0 && d0 == 1) || (k == 1 && d1 == 1) || (k == 2 && d2 == 1) || (k == 3 && d3 == 1))
  {
    var t3, t2 := d2 + 2 * d3, d1 + 2 * (d2 + 2 * d3);
    Halves(d0, t2);
    Halves(d1, t3);
    Halves(d2, d3);
    if k > 0 {
      assert Bit(Bits4(d0, d1, d2, d3), k) == Bit(t2, k - 1);
      if k > 1 {
        assert Bit(t2, k - 1) == Bit(t3, k - 2);
        if k > 2 {
          assert Bit(t3, k - 2) == Bit(d3, k - 3);
          SmallBit(d3, k - 3);
        }
      }
    }
  }

  ghost function DropIf(drops: set<nat>, i: nat, d: nat): set<nat> { if d == 1 then drops + {i} else drops }

  ghost function DropFour(drops: set<nat>, i: nat, d0: nat, d1: nat, d2: nat, d3: nat): set<nat> {
    DropIf(DropIf(DropIf(DropIf(drops, i, d0), i + 1, d1), i + 2, d2), i + 3, d3)
  }

  lemma KeptFour(mask: nat, out: nat, drops: set<nat>, i: nat, d0: nat, d1: nat, d2: nat, d3: nat)
    requires Kept(mask, out, drops) && d0 < 2 && d1 < 2 && d2 < 2 && d3 < 2
    requires forall j :: i <= j < i + 4 ==> Bit(mask, j) && j !in drops
    ensures Kept(mask, Xor(out, Shl(Bits4(d0, d1, d2, d3), i)), DropFour(drops, i, d0, d1, d2, d3))
  {
    var m := Bits4(d0, d1, d2, d3);
    var out' := Xor(out, Shl(m, i));
    var drops' := DropFour(drops, i, d0, d1, d2, d3);
    forall j: nat ensures Bit(out', j) == (Bit(mask, j) && j !in drops') {
      BitXor(out, Shl(m, i), j);
      BitShl(m, i, j);
      if j >= i {
        Bits4At(d0, d1, d2, d3, j - i);
      }
    }
  }

  // ----- the two ways through a mask

  /** After `k` packets of the list: the state so far, and the masks. */
  ghost predicate Progress<M>(st0: State<M>, now: State<M>, list: seq<nat>, k: nat, entries: seq<nat>, env: Env<M>,
      mask: nat, out: nat)
  {
    && k <= |list| && AllReady(st0, list[..k], entries, env)
    && now == Run(st0, list[..k], entries, env) && Kept(mask, out, now.drops)
    && forall j :: j in now.drops ==> Bit(mask, j)
  }

  lemma ProgressOne<M>(st0: State<M>, now: State<M>, list: seq<nat>, k: nat, entries: seq<nat>, env: Env<M>,
      mask: nat, out: nat, d: nat, next: State<M>)
    requires AllReady(st0, list, entries, env) && Progress(st0, now, list, k, entries, env, mask, out)
    requires k < |list| && Bit(mask, list[k]) && list[k] !in now.drops && d < 2
    requires Ready(now, list[k], entries, env) && next == Step(now, list[k], entries, env)
    requires next.drops == DropIf(now.drops, list[k], d)
    ensures Progress(st0, next, list, k + 1, entries, env, mask, Xor(out, Shl(d, list[k])))
  {
    RunNext(st0, list, k, entries, env);
    KeptOne(mask, out, now.drops, list[k], d);
  }

  lemma RunFour<M>(st0: State<M>, list: seq<nat>, k: nat, entries: seq<nat>, env: Env<M>)
    requires AllReady(st0, list, entries, env) && k + 4 <= |list| && list == From(0, |list|)
    ensures AllReady(st0, list[..k], entries, env) && AllReady(st0, list[..k + 4], entries, env)
    ensures FourReady(Run(st0, list[..k], entries, env), k, entries, env)
    ensures Run(st0, list[..k + 4], entries, env) == FourSteps(Run(st0, list[..k], entries, env), k, entries, env)
  {
    assert forall j :: 0 <= j < |list| ==> list[j] == j;
    RunNext(st0, list, k, entries, env);
    RunNext(st0, list, k + 1, entries, env);
    RunNext(st0, list, k + 2, entries, env);
    RunNext(st0, list, k + 3, entries, env);
    var r := Run(st0, list[..k], entries, env);
    assert forall j :: 0 <= j < |list| ==> Ready(st0, list[j], entries, env);
    assert Ready(r, k, entries, env) && Ready(r, k + 1, entries, env) && Ready(r, k + 2, entries, env) &&
      Ready(r, k + 3, entries, env);
  }

  ghost predicate AllBits(mask: nat, n: nat) { forall j :: 0 <= j < n ==> Bit(mask, j) }

  /** Only packets below `i` were dropped so far. */
  ghost predicate Low<M>(st: State<M>, i: nat) { forall j :: j in st.drops ==> j < i }

  lemma DropsFour(mask: nat, out: nat, drops: set<nat>, n: nat, k: nat, d0: nat, d1: nat, d2: nat, d3: nat)
    requires Kept(mask, out, drops) && AllBits(mask, n) && k + 4 <= n && d0 < 2 && d1 < 2 && d2 < 2 && d3 < 2
    requires forall j :: j in drops ==> Bit(mask, j) && j < k
    ensures var drops' := DropFour(drops, k, d0, d1, d2, d3);
      Kept(mask, Xor(out, Shl(Bits4(d0, d1, d2, d3), k)), drops') &&
      forall j :: j in drops' ==> Bit(mask, j) && j < k + 4
  {
    KeptFour(mask, out, drops, k, d0, d1, d2, d3);
  }

  lemma FourReadyAfter<M>(st0: State<M>, list: seq<nat>, k: nat, entries: seq<nat>, env: Env<M>, now: State<M>)
    requires AllReady(st0, list, entries, env) && k + 4 <= |list| && list == From(0, |list|)
    requires AllReady(st0, list[..k], entries, env) && now == Run(st0, list[..k], entries, env)
    ensures FourReady(now, k, entries, env)
  {
    RunFour(st0, list, k, entries, env);
  }

  lemma ProgressFour<M>(st0: State<M>, now: State<M>, list: seq<nat>, k: nat, entries: seq<nat>, env: Env<M>,
      mask: nat, out: nat, d0: nat, d1: nat, d2: nat, d3: nat, next: State<M>)
    requires AllReady(st0, list, entries, env) && list == From(0, |list|) &&
      Progress(st0, now, list, k, entries, env, mask, out)
    requires k + 4 <= |list| && d0 < 2 && d1 < 2 && d2 < 2 && d3 < 2 && AllBits(mask, |list|) && Low(now, k)
    requires FourReady(now, k, entries, env) && next == FourSteps(now, k, entries, env)
    requires next.drops == DropFour(now.drops, k, d0, d1, d2, d3)
    ensures Progress(st0, next, list, k + 4, entries, env, mask, Xor(out, Shl(Bits4(d0, d1, d2, d3), k))) &&
      Low(next, k + 4)
  {
    RunFour(st0, list, k, entries, env);
    DropsFour(mask, out, now.drops, |list|, k, d0, d1, d2, d3);
  }

  lemma Finished<M>(st0: State<M>, now: State<M>, list: seq<nat>, entries: seq<nat>, env: Env<M>, mask: nat, out: nat)
    requires Progress(st0, now, list, |list|, entries, env, mask, out)
    ensures AllReady(st0, list, entries, env) && now == Run(st0, list, entries, env)
    ensures forall j: nat :: Bit(Xor(out, mask), j) == (j in now.drops)
  {
    assert list[..|list|] == list;
    forall j: nat ensures Bit(Xor(out, mask), j) == (j in now.drops) {
      BitXor(out, mask, j);
    }
  }

  lemma ReadyAfter<M>(st0: State<M>, list: seq<nat>, k: nat, entries: seq<nat>, env: Env<M>, now: State<M>)
    requires AllReady(st0, list, entries, env) && k < |list| && now == Run(st0, list[..k], entries, env)
    ensures Ready(now, list[k], entries, env)
  {
    RunNext(st0, list, k, entries, env);
  }

  lemma LowBits(mask: nat, list: seq<nat>)
    requires list == Positions(mask, 0) == From(0, Popcount(mask))
    ensures |list| == Popcount(mask) && list == From(0, |list|) && AllBits(mask, |list|)
  {
    forall j | 0 <= j < |list| ensures Bit(mask, j) {
      PositionsAreBits(mask, 0, j);
      assert list[j] == j;
    }
  }

  lemma FourFit(i: nat, n: nat)
    requires i % 4 == 0 && i < n - n % 4
    ensures i + 4 <= n - n % 4
  {
  }

  // ----- the code

  function Num(b: bool): nat { if b then 1 else 0 }

  class FlowTable<M(!new)> {
    const slots: array<Slot<M>>

    constructor (init: seq<Slot<M>>)
      ensures fresh(slots) && slots[..] == init
    {
      slots := new Slot<M>[|init|](i requires 0 <= i < |init| => init[i]);
    }

    ghost function Now(pkts: array<Packet>, drops: set<nat>): State<M>
      reads slots, pkts
    {
      State(slots[..], pkts[..], drops)
    }

    ghost predicate Separate(pkts: array<Packet>) { pkts as object != slots }

    /** rte_meter_trtcm_color_aware_check on a slot's meter. */
    method Check(a: nat, env: Env<M>, p: Packet) returns (c: Color)
      requires a < slots.Length && Known(env.classes, p)
      modifies slots
      ensures slots[..] == MeterAt(old(slots[..]), a, env, p) && c == Verdict(old(slots[..]), a, env, p).1
    {
      var v := env.check(slots[a].meter, env.time, p.length, env.classes[p.dscp].color);
      slots[a] := slots[a].(meter := v.0);
      c := v.1;
    }

    method Tally(a: nat, c: Color)
      requires a < slots.Length
      modifies slots
      ensures slots[..] == StatAt(old(slots[..]), a, c)
    {
      slots[a] := slots[a].(stats := Count(slots[a].stats, slots[a].policer.At(c)));
    }

    /** pkt_work. */
    method PktWork(pkts: array<Packet>, i: nat, entries: seq<nat>, env: Env<M>, ghost drops: set<nat>)
        returns (drop: nat)
      requires Separate(pkts) && Ready(Now(pkts, drops), i, entries, env)
      modifies slots, pkts
      ensures drop < 2 && Now(pkts, DropIf(drops, i, drop)) == Step(old(Now(pkts, drops)), i, entries, env)
    {
      ghost var st := Now(pkts, drops);
      StepIsWork(st, i, entries, env);
      var p := pkts[i];
      var a := SlotOf(env, entries[i], p);
      var color2 := Check(a, env, p);
      var act := slots[a].policer.At(color2);
      Tally(a, color2);
      pkts[i] := p.(color := act.color);
      drop := Num(act.drop);
    }

    /** pkt4_work: reads, then meters, then counts, then colours all four. */
    method Pkt4Work(pkts: array<Packet>, i: nat, entries: seq<nat>, env: Env<M>, ghost drops: set<nat>)
      returns (mask: nat, ghost d0: nat, ghost d1: nat, ghost d2: nat, ghost d3: nat)
      requires Separate(pkts) && FourReady(Now(pkts, drops), i, entries, env)
      modifies slots, pkts
      ensures d0 < 2 && d1 < 2 && d2 < 2 && d3 < 2 && mask == Bits4(d0, d1, d2, d3)
      ensures Now(pkts, DropFour(drops, i, d0, d1, d2, d3)) == FourSteps(old(Now(pkts, drops)), i, entries, env)
    {
      ghost var st := Now(pkts, drops);
      var p0, p1, p2, p3 := pkts[i], pkts[i + 1], pkts[i + 2], pkts[i + 3];
      var a0, a1 := SlotOf(env, entries[i], p0), SlotOf(env, entries[i + 1], p1);
      var a2, a3 := SlotOf(env, entries[i + 2], p2), SlotOf(env, entries[i + 3], p3);
      FourStepsAre(st, i, entries, env, a0, a1, a2, a3);
      var b0, b1, b2, b3 := WorkSlots4(a0, a1, a2, a3, env, p0, p1, p2, p3);
      pkts[i] := p0.(color := b0.color);
      pkts[i + 1] := p1.(color := b1.color);
      pkts[i + 2] := p2.(color := b2.color);
      pkts[i + 3] := p3.(color := b3.color);
      d0, d1, d2, d3 := Num(b0.drop), Num(b1.drop), Num(b2.drop), Num(b3.drop);
      mask := Num(b0.drop) + 2 * (Num(b1.drop) + 2 * (Num(b2.drop) + 2 * Num(b3.drop)));
    }

    method WorkSlots4(a0: nat, a1: nat, a2: nat, a3: nat, env: Env<M>, p0: Packet, p1: Packet, p2: Packet, p3: Packet)
      returns (b0: Action, b1: Action, b2: Action, b3: Action)
      requires a0 < slots.Length && a1 < slots.Length && a2 < slots.Length && a3 < slots.Length
      requires Known(env.classes, p0) && Known(env.classes, p1) && Known(env.classes, p2) && Known(env.classes, p3)
      modifies slots
      ensures
        var s := old(slots[..]);
        var w1 := Work(s, a0, env, p0);
        var w2 := Work(w1, a1, env, p1);
        var w3 := Work(w2, a2, env, p2);
        && slots[..] == Work(w3, a3, env, p3)
        && b0 == ActionAt(s, a0, env, p0) && b1 == ActionAt(w1, a1, env, p1)
        && b2 == ActionAt(w2, a2, env, p2) && b3 == ActionAt(w3, a3, env, p3)
    {
      FourWorks(slots[..], a0, a1, a2, a3, env, p0, p1, p2, p3);
      var c0 := Check(a0, env, p0);
      var c1 := Check(a1, env, p1);
      var c2 := Check(a2, env, p2);
      var c3 := Check(a3, env, p3);
      b0, b1, b2, b3 := slots[a0].policer.At(c0), slots[a1].policer.At(c1), slots[a2].policer.At(c2),
        slots[a3].policer.At(c3);
      Tally(a0, c0);
      Tally(a1, c1);
      Tally(a2, c2);
      Tally(a3, c3);
    }

    /** pipeline_fa_msg_req_policer_stats_read_handler. */
    method StatsRead(entry: Option<nat>, policerId: nat, clear: bool) returns (status: int, stats: Stats)
      requires entry.Some? ==> N_TC * entry.value + N_TC <= slots.Length
      modifies slots
      ensures status == (if entry.None? || policerId >= N_TC then -1 else 0)
      ensures status == 0 ==> stats == old(slots[..])[N_TC * entry.value + policerId].stats
      ensures slots[..] == if status == 0 && clear then ClearAt(old(slots[..]), N_TC * entry.value + policerId)
        else old(slots[..])
      ensures status == 0 && clear ==> slots[N_TC * entry.value + policerId].stats == Stats(0, 0, 0, 0)
      ensures forall a :: 0 <= a < slots.Length ==>
        slots[a].meter == old(slots[a].meter) && slots[a].policer == old(slots[a].policer)
    {
      if entry.None? || policerId >= N_TC {
        return -1, ZERO;
      }
      var a := N_TC * entry.value + policerId;
      stats := slots[a].stats;
      if clear {
        slots[a] := slots[a].(stats := ZERO);
      }
      status := 0;
    }

    /** flow_table_entry_set_default on a table entry. */
    method SetDefault(e: nat, meter: M)
      requires N_TC * e + N_TC <= slots.Length
      modifies slots
      ensures slots[..] == ResetEntry(old(slots[..]), e, meter)
      ensures forall a :: 4 * e <= a < 4 * e + 4 ==>
        slots[a] == Slot(meter, Policer(Action(false, 0), Action(false, 1), Action(false, 2)), Stats(0, 0, 0, 0))
    {
      for i := 0 to N_TC
        invariant forall a :: 0 <= a < slots.Length ==>
          slots[a] == if N_TC * e <= a < N_TC * e + i then DefaultSlot(meter) else old(slots[..])[a]
      {
        slots[N_TC * e + i] := DefaultSlot(meter);
      }
    }

    /** The contiguous case: four at a time, then the rest. */
    method FastPath(pkts: array<Packet>, mask: nat, entries: seq<nat>, env: Env<M>, ghost list: seq<nat>)
        returns (out: nat, ghost drops: set<nat>)
      requires Separate(pkts) && AllReady(Now(pkts, {}), list, entries, env) &&
        list == Positions(mask, 0) == From(0, Popcount(mask))
      modifies slots, pkts
      ensures Progress(old(Now(pkts, {})), Now(pkts, drops), list, |list|, entries, env, mask, out)
    {
      ghost var st0 := Now(pkts, {});
      var n := Popcount(mask);
      LowBits(mask, list);
      var i;
      i, out, drops := ByFour(pkts, n, mask, entries, env, st0, list);
      out, drops := ByOne(pkts, i, n, mask, out, entries, env, st0, list, drops);
    }

    method ByOne(pkts: array<Packet>, i0: nat, n: nat, ghost mask: nat, out0: nat, entries: seq<nat>, env: Env<M>,
                 ghost st0: State<M>, ghost list: seq<nat>, ghost drops0: set<nat>)
      returns (out: nat, ghost drops: set<nat>)
      requires Separate(pkts) && AllReady(st0, list, entries, env) && i0 <= n
      requires |list| == n && list == From(0, n) && AllBits(mask, n) && Low(Now(pkts, drops0), i0)
      requires Progress(st0, Now(pkts, drops0), list, i0, entries, env, mask, out0)
      modifies slots, pkts
      ensures Progress(st0, Now(pkts, drops), list, n, entries, env, mask, out)
    {
      var i := i0;
      out, drops := out0, drops0;
      while i < n
        invariant i <= n && Low(Now(pkts, drops), i)
        invariant Progress(st0, Now(pkts, drops), list, i, entries, env, mask, out)
      {
        out, drops := OneMore(pkts, i, i, entries, env, st0, list, drops, mask, out);
        i := i + 1;
      }
    }

    method ByFour(pkts: array<Packet>, n: nat, mask: nat, entries: seq<nat>, env: Env<M>, ghost st0: State<M>,
        ghost list: seq<nat>)
      returns (i: nat, out: nat, ghost drops: set<nat>)
      requires Separate(pkts) && st0 == Now(pkts, {}) && AllReady(st0, list, entries, env)
      requires |list| == n && list == From(0, n) && AllBits(mask, n)
      modifies slots, pkts
      ensures i == n - n % 4 && Low(Now(pkts, drops), i)
      ensures Progress(st0, Now(pkts, drops), list, i, entries, env, mask, out)
    {
      i, out, drops := 0, mask, {};
      while i < n - n % 4
        invariant i <= n - n % 4 && i % 4 == 0 && Low(Now(pkts, drops), i)
        invariant Progress(st0, Now(pkts, drops), list, i, entries, env, mask, out)
      {
        FourFit(i, n);
        out, drops := FourMore(pkts, i, entries, env, st0, list, drops, mask, out);
        i := i + 4;
      }
    }

    /** Four packets at list positions `i` to `i + 3`. */
    method FourMore(pkts: array<Packet>, i: nat, entries: seq<nat>, env: Env<M>,
                    ghost st0: State<M>, ghost list: seq<nat>, ghost drops: set<nat>, ghost mask: nat, out: nat)
      returns (out': nat, ghost drops': set<nat>)
      requires Separate(pkts) && AllReady(st0, list, entries, env) && i + 4 <= |list| && list == From(0, |list|)
      requires Progress(st0, Now(pkts, drops), list, i, entries, env, mask, out)
      requires AllBits(mask, |list|) && Low(Now(pkts, drops), i)
      modifies slots, pkts
      ensures Progress(st0, Now(pkts, drops'), list, i + 4, entries, env, mask, out') && Low(Now(pkts, drops'), i + 4)
    {
      ghost var before := Now(pkts, drops);
      FourReadyAfter(st0, list, i, entries, env, before);
      var m, d0, d1, d2, d3 := Pkt4Work(pkts, i, entries, env, drops);
      drops' := DropFour(drops, i, d0, d1, d2, d3);
      ProgressFour(st0, before, list, i, entries, env, mask, out, d0, d1, d2, d3, Now(pkts, drops'));
      out' := Xor(out, Shl(m, i));
    }

    /** One packet at list position `k`. */
    method OneMore(pkts: array<Packet>, ghost k: nat, pos: nat, entries: seq<nat>, env: Env<M>,
                   ghost st0: State<M>, ghost list: seq<nat>, ghost drops: set<nat>, ghost mask: nat, out: nat)
      returns (out': nat, ghost drops': set<nat>)
      requires Separate(pkts) && AllReady(st0, list, entries, env) && k < |list| && list[k] == pos
      requires Progress(st0, Now(pkts, drops), list, k, entries, env, mask, out) && Bit(mask, pos) && pos !in drops
      modifies slots, pkts
      ensures Progress(st0, Now(pkts, drops'), list, k + 1, entries, env, mask, out')
      ensures drops' == drops || drops' == drops + {pos}
    {
      ghost var before := Now(pkts, drops);
      ReadyAfter(st0, list, k, entries, env, before);
      var d := PktWork(pkts, pos, entries, env, drops);
      drops' := DropIf(drops, pos, d);
      ProgressOne(st0, before, list, k, entries, env, mask, out, d, Now(pkts, drops'));
      out' := Xor(out, Shl(d, pos));
    }

    /** Any other mask: lowest set bit first. */
    method SlowPath(pkts: array<Packet>, mask: nat, entries: seq<nat>, env: Env<M>, ghost list: seq<nat>)
        returns (out: nat, ghost drops: set<nat>)
      requires Separate(pkts) && AllReady(Now(pkts, {}), list, entries, env) && list == Positions(mask, 0)
      modifies slots, pkts
      ensures Progress(old(Now(pkts, {})), Now(pkts, drops), list, |list|, entries, env, mask, out)
    {
      ghost var st0 := Now(pkts, {});
      var pending := mask;
      out, drops := mask, {};
      ghost var k := 0;
      while pending != 0
        invariant 0 <= k <= |list| && Positions(pending, 0) == list[k..]
        invariant forall j: nat :: Bit(pending, j) ==> Bit(mask, j) && j !in drops
        invariant Progress(st0, Now(pkts, drops), list, k, entries, env, mask, out)
        decreases pending
      {
        var pos := Ctz(pending);
        LowestFirst(pending, 0);
        LowestIsSet(pending);
        ClearsLowest(pending);
        assert list[k..][0] == list[k] == pos && list[k + 1..] == list[k..][1..];
        out, drops := OneMore(pkts, k, pos, entries, env, st0, list, drops, mask, out);
        ClearedBits(pending);
        pending := AndNot(pending, Shl(1, pos));
        k := k + 1;
      }
      assert list[k..] == [];
    }

    /** The table's hit handler: equal to one packet after another, lowest first, dropping exactly those the
        policer drops. */
    method TableHit(pkts: array<Packet>, mask: nat, entries: seq<nat>, env: Env<M>) returns (dropMask: nat)
      requires Separate(pkts) && mask < Pow2(WIDTH) && AllReady(Now(pkts, {}), Positions(mask, 0), entries, env)
      modifies slots, pkts
      ensures var r := Run(old(Now(pkts, {})), Positions(mask, 0), entries, env);
        slots[..] == r.slots && pkts[..] == r.pkts && forall j: nat :: Bit(dropMask, j) == (j in r.drops)
    {
      ghost var list := Positions(mask, 0);
      ghost var st0 := Now(pkts, {});
      ContiguousPositions(mask, 0);
      WrappedTest(mask, WIDTH);
      var out; ghost var drops;
      if And(mask, Inc(mask, WIDTH)) == 0 {
        out, drops := FastPath(pkts, mask, entries, env, list);
      } else {
        out, drops := SlowPath(pkts, mask, entries, env, list);
      }
      Finished(st0, Now(pkts, drops), list, entries, env, mask, out);
      dropMask := Xor(out, mask);
    }
  }

  lemma ClearedBits(m: nat)
    requires m != 0
    ensures forall j: nat :: Bit(AndNot(m, Shl(1, Ctz(m))), j) == (Bit(m, j) && j != Ctz(m))
  {
    forall j: nat ensures Bit(AndNot(m, Shl(1, Ctz(m))), j) == (Bit(m, j) && j != Ctz(m)) {
      BitAndNot(m, Shl(1, Ctz(m)), j);
      BitShl(1, Ctz(m), j);
      if j >= Ctz(m) {
        SmallBit(1, j - Ctz(m));
      }
    }
  }

  /** For every packet of the mask there is a turn at which it is decided: after the packets of lower position, as
      it came in; what that step does to it is what the whole call does to it. */
  lemma HitEffect<M(!new)>(st: State<M>, mask: nat, entries: seq<nat>, env: Env<M>, j: nat) returns (k: nat)
    requires AllReady(st, Positions(mask, 0), entries, env) && Bit(mask, j)
    ensures var list := Positions(mask, 0);
      && k < |list| && list[k] == j && (forall x :: 0 <= x < |list| ==> (list[x] < j <==> x < k))
      && AllReady(st, list[..k], entries, env)
      && var before := Run(st, list[..k], entries, env);
         && Ready(before, j, entries, env) && SameAt(before, st, j)
         && SameAt(Run(st, list, entries, env), Step(before, j, entries, env), j)
  {
    PositionsAreBits(mask, 0, j);
    PositionsAscend(mask, 0);
    k := TurnOf(Positions(mask, 0), j);
    RunEffect(st, Positions(mask, 0), entries, env, k);
  }

  lemma TurnOf(list: seq<nat>, j: nat) returns (k: nat)
    requires j in list && forall x, y :: 0 <= x < y < |list| ==> list[x] < list[y]
    ensures k < |list| && list[k] == j && forall x :: 0 <= x < |list| ==> (list[x] < j <==> x < k)
  {
    k :| 0 <= k < |list| && list[k] == j;
  }

  /** A packet outside the mask is left alone. */
  lemma MissEffect<M(!new)>(st: State<M>, mask: nat, entries: seq<nat>, env: Env<M>, j: nat)
    requires AllReady(st, Positions(mask, 0), entries, env) && !Bit(mask, j) && j < |st.pkts|
    ensures SameAt(Run(st, Positions(mask, 0), entries, env), st, j)
  {
    var list := Positions(mask, 0);
    PositionsAreBits(mask, 0, j);
    assert list[0..] == list && list[..0] == [];
    Untouched(st, list, 0, entries, env, j);
  }
}
