/** No packet is lost by the policer's counters, whatever is processed, read, cleared or reset. */
module PolicerLedger {
  import opened FlowMeter
  import opened FlowActions

  function Sum(s: Stats): nat { s.green + s.yellow + s.red + s.dropped }

  /** Counters are 64-bit. */
  predicate InRange(s: Stats) {
    s.green < COUNTER && s.yellow < COUNTER && s.red < COUNTER && s.dropped < COUNTER
  }

  /** The counter that an action adds one to, and whether that makes it wrap to 0. */
  function Chosen(s: Stats, a: Action): nat {
    if a.drop then s.dropped else if a.color == 0 then s.green else if a.color == 1 then s.yellow else s.red
  }

  predicate Overflows(s: Stats, a: Action) { Chosen(s, a) + 1 == COUNTER }

  function One(b: bool): nat { if b then 1 else 0 }

  lemma CountedOnce(s: Stats, a: Action)
    requires InRange(s)
    ensures InRange(Count(s, a)) && Sum(Count(s, a)) + COUNTER * One(Overflows(s, a)) == Sum(s) + 1
  {
  }

  // ----- a batch

  /** How many packets of the list fall on slot `a`. */
  ghost function Handled<M>(st: State<M>, list: seq<nat>, entries: seq<nat>, env: Env<M>, a: nat): (n: nat)
    requires AllReady(st, list, entries, env)
  {
    if list == [] then 0
    else
      var k := |list| - 1;
      assert Ready(st, list[k], entries, env);
      Handled(st, list[..k], entries, env, a) + One(Here(st, list[k], entries, env, a))
  }

  predicate Here<M>(st: State<M>, i: nat, entries: seq<nat>, env: Env<M>, a: nat)
    requires i < |st.pkts| && i < |entries| && Known(env.classes, st.pkts[i])
  {
    SlotOf(env, entries[i], st.pkts[i]) == a
  }

  /** Processing packet `i` makes a counter of slot `a` wrap. */
  ghost predicate Carried<M>(st: State<M>, i: nat, entries: seq<nat>, env: Env<M>, a: nat)
    requires Ready(st, i, entries, env) && a < |st.slots|
  {
    Here(st, i, entries, env, a) && Overflows(st.slots[a].stats, ActionAt(st.slots, a, env, st.pkts[i]))
  }

  /** How often counters of slot `a` wrap while the list is processed. */
  ghost function Carries<M>(st: State<M>, list: seq<nat>, entries: seq<nat>, env: Env<M>, a: nat): (n: nat)
    requires AllReady(st, list, entries, env) && a < |st.slots|
  {
    if list == [] then 0
    else
      var k := |list| - 1;
      ReadyAfter(st, list, k, entries, env, Run(st, list[..k], entries, env));
      Carries(st, list[..k], entries, env, a) + One(Carried(Run(st, list[..k], entries, env), list[k], entries, env, a))
  }

  lemma StepCounts<M>(st: State<M>, i: nat, entries: seq<nat>, env: Env<M>, a: nat)
    requires Ready(st, i, entries, env) && a < |st.slots| && InRange(st.slots[a].stats)
    ensures var now, old_ := Step(st, i, entries, env).slots[a].stats, st.slots[a].stats;
      && InRange(now)
      && Sum(now) + COUNTER * One(Carried(st, i, entries, env, a)) == Sum(old_) + One(Here(st, i, entries, env, a))
  {
    if Here(st, i, entries, env, a) {
      CountedOnce(st.slots[a].stats, ActionAt(st.slots, a, env, st.pkts[i]));
    }
  }

  /** A list of packets adds exactly its packets to each slot's counters, 2^64 less for every counter that wraps. */
  lemma {:induction false} RunCounts<M>(st: State<M>, list: seq<nat>, entries: seq<nat>, env: Env<M>, a: nat)
    requires AllReady(st, list, entries, env) && a < |st.slots| && InRange(st.slots[a].stats)
    ensures var now, old_ := Run(st, list, entries, env).slots[a].stats, st.slots[a].stats;
      && InRange(now)
      && Sum(now) + COUNTER * Carries(st, list, entries, env, a) == Sum(old_) + Handled(st, list, entries, env, a)
    decreases |list|
  {
    if list != [] {
      var k := |list| - 1;
      RunCounts(st, list[..k], entries, env, a);
      assert list[..k + 1] == list;
      RunNext(st, list, k, entries, env);
      StepCounts(Run(st, list[..k], entries, env), list[k], entries, env, a);
    }
  }

  // ----- every run

  /** The table and, per slot since its last reset: what clearing reads returned, how many packets
      were processed, and how often a counter wrapped. */
  datatype World<M> = World(slots: seq<Slot<M>>, returned: seq<nat>, processed: seq<nat>, wraps: seq<nat>)

  datatype Event<!M> =
    | Batch(list: seq<nat>, entries: seq<nat>, env: Env<M>, pkts: seq<Packet>)
    | Read(a: nat, clear: bool)
    | Update(a: nat, meter: M, policer: Policer)
    | Reset(e: nat, meter: M)

  ghost predicate Enabled<M>(w: World<M>, ev: Event<M>) {
    match ev
    case Batch(list, entries, env, pkts) => AllReady(State(w.slots, pkts, {}), list, entries, env)
    case Read(a, clear) => a < |w.slots|
    case Update(a, meter, policer) => a < |w.slots|
    case Reset(e, meter) => N_TC * e + N_TC <= |w.slots|
  }

  function Zeroed(e: nat, xs: seq<nat>): (r: seq<nat>)
    ensures |r| == |xs| && forall a :: 0 <= a < |xs| ==> r[a] == if N_TC * e <= a < N_TC * e + N_TC then 0 else xs[a]
  {
    seq(|xs|, a requires 0 <= a < |xs| => if N_TC * e <= a < N_TC * e + N_TC then 0 else xs[a])
  }

  ghost predicate Sized<M>(w: World<M>) {
    |w.returned| == |w.slots| && |w.processed| == |w.slots| && |w.wraps| == |w.slots|
  }

  ghost function After<M>(w: World<M>, ev: Event<M>): (r: World<M>)
    requires Sized(w) && Enabled(w, ev)
    ensures Sized(r) && |r.slots| == |w.slots|
  {
    match ev
    case Batch(list, entries, env, pkts) =>
      var st := State(w.slots, pkts, {});
      w.(slots := Run(st, list, entries, env).slots,
         processed := seq(|w.slots|, a requires 0 <= a < |w.slots| =>
           w.processed[a] + Handled(st, list, entries, env, a)),
         wraps := seq(|w.slots|, a requires 0 <= a < |w.slots| => w.wraps[a] + Carries(st, list, entries, env, a)))
    case Read(a, clear) =>
      if !clear then w
      else w.(slots := ClearAt(w.slots, a), returned := w.returned[a := w.returned[a] + Sum(w.slots[a].stats)])
    case Update(a, meter, policer) => w.(slots := Configure(w.slots, a, meter, policer))
    case Reset(e, meter) =>
      World(ResetEntry(w.slots, e, meter), Zeroed(e, w.returned), Zeroed(e, w.processed), Zeroed(e, w.wraps))
  }

  /** What was returned and what is still counted make up what was processed, 2^64 less for every wrap. */
  ghost predicate Balanced<M>(w: World<M>, a: nat)
    requires Sized(w) && a < |w.slots|
  {
    && InRange(w.slots[a].stats)
    && w.returned[a] + Sum(w.slots[a].stats) + COUNTER * w.wraps[a] == w.processed[a]
  }

  ghost predicate Conserved<M>(w: World<M>) {
    Sized(w) && forall a :: 0 <= a < |w.slots| ==> Balanced(w, a)
  }

  /** Each event keeps each slot's balance. */
  lemma BatchBalances<M>(w: World<M>, ev: Event<M>, a: nat)
    requires Sized(w) && Enabled(w, ev) && ev.Batch? && a < |w.slots| && Balanced(w, a)
    ensures Balanced(After(w, ev), a)
  {
    var st := State(w.slots, ev.pkts, {});
    RunCounts(st, ev.list, ev.entries, ev.env, a);
    assert After(w, ev).processed[a] == w.processed[a] + Handled(st, ev.list, ev.entries, ev.env, a);
    assert After(w, ev).wraps[a] == w.wraps[a] + Carries(st, ev.list, ev.entries, ev.env, a);
  }

  lemma ReadBalances<M>(w: World<M>, ev: Event<M>, a: nat)
    requires Sized(w) && Enabled(w, ev) && ev.Read? && a < |w.slots| && Balanced(w, a)
    ensures Balanced(After(w, ev), a)
  {
  }

  lemma UpdateBalances<M>(w: World<M>, ev: Event<M>, a: nat)
    requires Sized(w) && Enabled(w, ev) && ev.Update? && a < |w.slots| && Balanced(w, a)
    ensures Balanced(After(w, ev), a)
  {
  }

  lemma ResetBalances<M>(w: World<M>, ev: Event<M>, a: nat)
    requires Sized(w) && Enabled(w, ev) && ev.Reset? && a < |w.slots| && Balanced(w, a)
    ensures Balanced(After(w, ev), a)
  {
  }

  lemma EventConserves<M>(w: World<M>, ev: Event<M>)
    requires Conserved(w) && Enabled(w, ev)
    ensures Conserved(After(w, ev))
  {
    forall a | 0 <= a < |w.slots| ensures Balanced(After(w, ev), a) {
      assert Balanced(w, a);
      match ev
      case Batch(_, _, _, _) => BatchBalances(w, ev, a);
      case Read(_, _) => ReadBalances(w, ev, a);
      case Update(_, _, _) => UpdateBalances(w, ev, a);
      case Reset(_, _) => ResetBalances(w, ev, a);
    }
  }

  ghost function AfterAll<M>(w: World<M>, evs: seq<Event<M>>): (r: World<M>)
    requires Sized(w) && AllEnabled(w, evs)
    ensures Sized(r)
    decreases |evs|
  {
    if evs == [] then w else AfterAll(After(w, evs[0]), evs[1..])
  }

  ghost predicate AllEnabled<M>(w: World<M>, evs: seq<Event<M>>)
    requires Sized(w)
    decreases |evs|
  {
    evs == [] || (Enabled(w, evs[0]) && AllEnabled(After(w, evs[0]), evs[1..]))
  }

  lemma {:induction false} RunsKeepBalance<M>(w: World<M>, evs: seq<Event<M>>)
    requires Conserved(w) && AllEnabled(w, evs)
    ensures Conserved(AfterAll(w, evs))
    decreases |evs|
  {
    if evs != [] {
      EventConserves(w, evs[0]);
      RunsKeepBalance(After(w, evs[0]), evs[1..]);
    }
  }

  /** Returned and current counts make up what was processed if and only if no counter wrapped,
      and none does in fewer than 2^64 packets. */
  ghost predicate Accounted<M>(w: World<M>, a: nat)
    requires Sized(w) && a < |w.slots|
  {
    var counted := w.returned[a] + Sum(w.slots[a].stats);
    && counted + COUNTER * w.wraps[a] == w.processed[a]
    && (counted == w.processed[a] <==> w.wraps[a] == 0)
    && (w.processed[a] < COUNTER ==> counted == w.processed[a])
  }

  lemma ConservedAccounts<M>(w: World<M>, a: nat)
    requires Conserved(w) && a < |w.slots|
    ensures Accounted(w, a)
  {
    assert Balanced(w, a);
  }

  /** A table all of whose entries were just added: nothing counted, returned or processed. */
  ghost predicate JustReset<M>(w: World<M>) {
    Sized(w) && forall a :: 0 <= a < |w.slots| ==> Blank(w, a)
  }

  ghost predicate Blank<M>(w: World<M>, a: nat)
    requires Sized(w) && a < |w.slots|
  {
    w.slots[a].stats == ZERO && w.returned[a] == 0 && w.processed[a] == 0 && w.wraps[a] == 0
  }

  lemma ResetConserved<M>(w: World<M>)
    requires JustReset(w)
    ensures Conserved(w)
  {
    forall a | 0 <= a < |w.slots| ensures Balanced(w, a) {
      assert Blank(w, a);
    }
  }

  /** In every run from a table just reset, every slot is accounted for. */
  lemma RunsConserve<M>(w: World<M>, evs: seq<Event<M>>)
    requires JustReset(w) && AllEnabled(w, evs)
    ensures forall a :: 0 <= a < |AfterAll(w, evs).slots| ==> Accounted(AfterAll(w, evs), a)
  {
    ResetConserved(w);
    RunsKeepBalance(w, evs);
    var r := AfterAll(w, evs);
    forall a | 0 <= a < |r.slots| ensures Accounted(r, a) {
      ConservedAccounts(r, a);
    }
  }
}
