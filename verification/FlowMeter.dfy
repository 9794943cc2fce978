/** Metering and policing one packet, and a list of packets. */
module FlowMeter {
  type Color = c: nat | c < 3

  /** Packet counters are 64 bits wide and wrap. */
  const COUNTER: nat := 0x1_0000_0000_0000_0000

  datatype Action = Action(drop: bool, color: Color)

  /** What the policer does with each colour the meter gives. */
  datatype Policer = Policer(green: Action, yellow: Action, red: Action) {
    function At(c: Color): Action { if c == 0 then green else if c == 1 then yellow else red }
  }

  datatype Stats = Stats(green: nat, yellow: nat, red: nat, dropped: nat)

  function Wrap(x: nat): nat { x % COUNTER }

  /** `n_pkts[color] += drop ^ 1; n_pkts_drop += drop`. */
  function Count(s: Stats, a: Action): Stats {
    if a.drop then s.(dropped := Wrap(s.dropped + 1))
    else if a.color == 0 then s.(green := Wrap(s.green + 1))
    else if a.color == 1 then s.(yellow := Wrap(s.yellow + 1))
    else s.(red := Wrap(s.red + 1))
  }

  /** The meter and policer of one traffic class of one flow; the meter's state is opaque. */
  datatype Slot<M> = Slot(meter: M, policer: Policer, stats: Stats)

  const N_TC := 4

  datatype Packet = Packet(length: nat, dscp: nat, color: Color)

  datatype Class = Class(tc: nat, color: Color)

  /** What a batch is processed with: the DSCP table, one time stamp, the meter's check. */
  datatype Env<!M> = Env(classes: seq<Class>, time: nat, check: (M, nat, nat, Color) -> (M, Color))

  predicate Known(classes: seq<Class>, p: Packet) { p.dscp < |classes| && classes[p.dscp].tc < N_TC }

  function SlotOf<M>(env: Env<M>, entry: nat, p: Packet): nat
    requires Known(env.classes, p)
  {
    N_TC * entry + env.classes[p.dscp].tc
  }

  /** The meter's verdict on a packet. */
  function Verdict<M>(slots: seq<Slot<M>>, a: nat, env: Env<M>, p: Packet): (M, Color)
    requires a < |slots| && Known(env.classes, p)
  {
    env.check(slots[a].meter, env.time, p.length, env.classes[p.dscp].color)
  }

  function MeterAt<M>(slots: seq<Slot<M>>, a: nat, env: Env<M>, p: Packet): (r: seq<Slot<M>>)
    requires a < |slots| && Known(env.classes, p)
    ensures |r| == |slots|
  {
    slots[a := slots[a].(meter := Verdict(slots, a, env, p).0)]
  }

  function StatAt<M>(slots: seq<Slot<M>>, a: nat, c: Color): (r: seq<Slot<M>>)
    requires a < |slots|
    ensures |r| == |slots|
  {
    slots[a := slots[a].(stats := Count(slots[a].stats, slots[a].policer.At(c)))]
  }

  /** Everything a batch changes. */
  datatype State<M> = State(slots: seq<Slot<M>>, pkts: seq<Packet>, drops: set<nat>)

  ghost predicate Ready<M>(st: State<M>, i: nat, entries: seq<nat>, env: Env<M>) {
    i < |st.pkts| && i < |entries| && Known(env.classes, st.pkts[i]) && N_TC * entries[i] + N_TC <= |st.slots|
  }

  ghost function Step<M>(st: State<M>, i: nat, entries: seq<nat>, env: Env<M>): (r: State<M>)
    requires Ready(st, i, entries, env)
    ensures |r.slots| == |st.slots| && |r.pkts| == |st.pkts|
  {
    var p := st.pkts[i];
    var a := SlotOf(env, entries[i], p);
    var c := Verdict(st.slots, a, env, p).1;
    var act := st.slots[a].policer.At(c);
    State(StatAt(MeterAt(st.slots, a, env, p), a, c), st.pkts[i := p.(color := act.color)],
          if act.drop then st.drops + {i} else st.drops)
  }

  ghost predicate AllReady<M>(st: State<M>, list: seq<nat>, entries: seq<nat>, env: Env<M>) {
    forall k :: 0 <= k < |list| ==> Ready(st, list[k], entries, env)
  }

  /** The packets of a list, one after the other. */
  ghost function Run<M>(st: State<M>, list: seq<nat>, entries: seq<nat>, env: Env<M>): (r: State<M>)
    requires AllReady(st, list, entries, env)
    ensures |r.slots| == |st.slots| && |r.pkts| == |st.pkts|
    ensures forall k :: 0 <= k < |st.pkts| ==> r.pkts[k].dscp == st.pkts[k].dscp
  {
    if list == [] then st
    else Step(Run(st, list[..|list| - 1], entries, env), list[|list| - 1], entries, env)
  }

  // ----- what one packet does

  /** A counter after one more packet, if it is the one to count it. */
  ghost predicate Ticks(now: nat, was: nat, here: bool) {
    now == if here then (was + 1) % 0x1_0000_0000_0000_0000 else was
  }

  /** One packet's effect: the meter of its flow and traffic class sees its length and the colour of its DSCP; the
      policer's action for the verdict decides colour and drop; the one counter that fits grows by one. */
  lemma StepEffect<M>(st: State<M>, i: nat, entries: seq<nat>, env: Env<M>)
    requires Ready(st, i, entries, env)
    ensures var r, p := Step(st, i, entries, env), st.pkts[i];
      var class_ := env.classes[p.dscp];
      var a := 4 * entries[i] + class_.tc;
      a < |st.slots| &&
      var (meter, verdict) := env.check(st.slots[a].meter, env.time, p.length, class_.color);
      var policer, was, now := st.slots[a].policer, st.slots[a].stats, r.slots[a].stats;
      var color := if verdict == 0 then policer.green.color
                   else if verdict == 1 then policer.yellow.color else policer.red.color;
      var drop := if verdict == 0 then policer.green.drop
                  else if verdict == 1 then policer.yellow.drop else policer.red.drop;
      && r.pkts == st.pkts[i := Packet(p.length, p.dscp, color)]
      && r.drops == (if drop then st.drops + {i} else st.drops)
      && r.slots == st.slots[a := Slot(meter, policer, now)]
      && Ticks(now.green, was.green, !drop && color == 0) && Ticks(now.yellow, was.yellow, !drop && color == 1)
      && Ticks(now.red, was.red, !drop && color == 2) && Ticks(now.dropped, was.dropped, drop)
  {
  }

  // ----- four at once

  /** Counting one packet and metering another commute, even in the same slot. */
  lemma Commute<M>(slots: seq<Slot<M>>, a: nat, c: Color, b: nat, env: Env<M>, p: Packet)
    requires a < |slots| && b < |slots| && Known(env.classes, p)
    ensures Verdict(StatAt(slots, a, c), b, env, p) == Verdict(slots, b, env, p)
    ensures MeterAt(StatAt(slots, a, c), b, env, p) == StatAt(MeterAt(slots, b, env, p), a, c)
    ensures StatAt(slots, a, c)[b].policer == slots[b].policer &&
      MeterAt(slots, b, env, p)[a].policer == slots[a].policer
  {
  }

  /** Metering past one, two and three packets still to be counted. */
  lemma Past1<M>(m: seq<Slot<M>>, a0: nat, c0: Color, b: nat, env: Env<M>, p: Packet)
    requires a0 < |m| && b < |m| && Known(env.classes, p)
    ensures Verdict(StatAt(m, a0, c0), b, env, p).1 == Verdict(m, b, env, p).1
    ensures StatAt(m, a0, c0)[b].policer == m[b].policer
    ensures MeterAt(StatAt(m, a0, c0), b, env, p) == StatAt(MeterAt(m, b, env, p), a0, c0)
  {
    Commute(m, a0, c0, b, env, p);
  }

  lemma Past2<M>(m: seq<Slot<M>>, a0: nat, c0: Color, a1: nat, c1: Color, b: nat, env: Env<M>, p: Packet)
    requires a0 < |m| && a1 < |m| && b < |m| && Known(env.classes, p)
    ensures var s := StatAt(StatAt(m, a0, c0), a1, c1);
      && Verdict(s, b, env, p).1 == Verdict(m, b, env, p).1 && s[b].policer == m[b].policer
      && MeterAt(s, b, env, p) == StatAt(StatAt(MeterAt(m, b, env, p), a0, c0), a1, c1)
  {
    Past1(m, a0, c0, b, env, p);
    Past1(StatAt(m, a0, c0), a1, c1, b, env, p);
  }

  lemma Past3<M>(m: seq<Slot<M>>, a0: nat, c0: Color, a1: nat, c1: Color, a2: nat, c2: Color, b: nat, env: Env<M>,
      p: Packet)
    requires a0 < |m| && a1 < |m| && a2 < |m| && b < |m| && Known(env.classes, p)
    ensures var s := StatAt(StatAt(StatAt(m, a0, c0), a1, c1), a2, c2);
      && Verdict(s, b, env, p).1 == Verdict(m, b, env, p).1 && s[b].policer == m[b].policer
      && MeterAt(s, b, env, p) == StatAt(StatAt(StatAt(MeterAt(m, b, env, p), a0, c0), a1, c1), a2, c2)
  {
    Past2(m, a0, c0, a1, c1, b, env, p);
    Past1(StatAt(StatAt(m, a0, c0), a1, c1), a2, c2, b, env, p);
  }

  // ----- lists

  lemma RunNext<M>(st: State<M>, list: seq<nat>, k: nat, entries: seq<nat>, env: Env<M>)
    requires AllReady(st, list, entries, env) && k < |list|
    ensures AllReady(st, list[..k], entries, env) && AllReady(st, list[..k + 1], entries, env)
    ensures Ready(Run(st, list[..k], entries, env), list[k], entries, env)
    ensures Run(st, list[..k + 1], entries, env) == Step(Run(st, list[..k], entries, env), list[k], entries, env)
  {
    var xs := list[..k + 1];
    assert xs[..|xs| - 1] == list[..k] && xs[|xs| - 1] == list[k];
    assert Ready(st, list[k], entries, env);
  }

  /** A packet as one state has it, another too. */
  ghost predicate SameAt<M>(a: State<M>, b: State<M>, j: nat) {
    j < |a.pkts| == |b.pkts| && a.pkts[j] == b.pkts[j] && (j in a.drops <==> j in b.drops)
  }

  lemma StepElsewhere<M>(st: State<M>, i: nat, entries: seq<nat>, env: Env<M>, j: nat)
    requires Ready(st, i, entries, env) && j < |st.pkts| && j != i
    ensures SameAt(Step(st, i, entries, env), st, j)
  {
  }

  /** Packets that are not in the rest of a list stay as they are. */
  lemma {:induction false} Untouched<M>(st: State<M>, list: seq<nat>, k: nat, entries: seq<nat>, env: Env<M>, j: nat)
    requires AllReady(st, list, entries, env) && k <= |list| && j < |st.pkts| && j !in list[k..]
    ensures AllReady(st, list[..k], entries, env)
    ensures SameAt(Run(st, list, entries, env), Run(st, list[..k], entries, env), j)
    decreases |list|
  {
    if k == |list| {
      assert list[..k] == list;
    } else {
      var n := |list| - 1;
      assert list[..n][..k] == list[..k] && list[k..] == list[..n][k..] + [list[n]];
      Untouched(st, list[..n], k, entries, env, j);
      RunNext(st, list, n, entries, env);
      assert list[..n + 1] == list;
      StepElsewhere(Run(st, list[..n], entries, env), list[n], entries, env, j);
    }
  }

  /** In a list without repetition each packet is decided at its turn: it comes as it was, and its colour and
      whether it is dropped are as that step leaves them. */
  lemma RunEffect<M>(st: State<M>, list: seq<nat>, entries: seq<nat>, env: Env<M>, k: nat)
    requires AllReady(st, list, entries, env) && k < |list|
    requires forall x, y :: 0 <= x < y < |list| ==> list[x] != list[y]
    ensures AllReady(st, list[..k], entries, env)
    ensures var before, j := Run(st, list[..k], entries, env), list[k];
      && Ready(before, j, entries, env) && SameAt(before, st, j)
      && SameAt(Run(st, list, entries, env), Step(before, j, entries, env), j)
  {
    RunNext(st, list, k, entries, env);
    assert Ready(st, list[k], entries, env);
    Untouched(st, list, k + 1, entries, env, list[k]);
    assert list[..k][..0] == [];
    Untouched(st, list[..k], 0, entries, env, list[k]);
  }

  // ----- configuration and reading

  const ZERO := Stats(0, 0, 0, 0)

  /** A slot of a flow entry that was just added: nothing dropped, colours kept, counters zero. */
  function DefaultSlot<M>(meter: M): Slot<M> {
    Slot(meter, Policer(Action(false, 0), Action(false, 1), Action(false, 2)), ZERO)
  }

  /** The four slots of entry `e` set to their defaults. */
  function ResetEntry<M>(slots: seq<Slot<M>>, e: nat, meter: M): (r: seq<Slot<M>>)
    requires N_TC * e + N_TC <= |slots|
    ensures |r| == |slots|
    ensures forall a :: 0 <= a < |slots| ==>
      r[a] == if N_TC * e <= a < N_TC * e + N_TC then DefaultSlot(meter) else slots[a]
  {
    seq(|slots|, a requires 0 <= a < |slots| =>
      if N_TC * e <= a < N_TC * e + N_TC then DefaultSlot(meter) else slots[a])
  }

  /** In an entry just added the policer drops nothing and leaves every packet the colour the meter gives it, and
      the packet is the first one counted. */
  lemma DefaultEffect<M>(st: State<M>, i: nat, entries: seq<nat>, env: Env<M>, meter: M)
    requires Ready(st, i, entries, env)
    ensures var st' := st.(slots := ResetEntry(st.slots, entries[i], meter));
      Ready(st', i, entries, env) &&
      var r, p := Step(st', i, entries, env), st.pkts[i];
      var class_ := env.classes[p.dscp];
      var verdict := env.check(meter, env.time, p.length, class_.color).1;
      && r.drops == st.drops && r.pkts == st.pkts[i := p.(color := verdict)]
      && r.slots[4 * entries[i] + class_.tc].stats ==
           Stats(if verdict == 0 then 1 else 0, if verdict == 1 then 1 else 0, if verdict == 2 then 1 else 0, 0)
  {
  }

  /** A slot's meter and policer replaced, its counters kept. */
  function Configure<M>(slots: seq<Slot<M>>, a: nat, meter: M, policer: Policer): (r: seq<Slot<M>>)
    requires a < |slots|
    ensures |r| == |slots|
  {
    slots[a := slots[a].(meter := meter, policer := policer)]
  }

  function ClearAt<M>(slots: seq<Slot<M>>, a: nat): (r: seq<Slot<M>>)
    requires a < |slots|
    ensures |r| == |slots|
  {
    slots[a := slots[a].(stats := ZERO)]
  }
}
