/** The classifiers' driver: slots, completions and flow data updated in place. */
module AclClassify {
  import opened Basics
  import opened AclFormat
  import opened AclTrie
  import opened AclMeaning
  import opened AclTraversal
  import opened AclSearch
  import opened AclSearchSteps

  /** The answers that the table gives, trie by trie. */
  ghost function Answers1(ctx: Ctx, d: seq<byte>): (row: seq<Record>)
    requires forall t :: 0 <= t < |ctx.rootIndex| ==> Finishes(ctx, d, t)
    ensures |row| == |ctx.rootIndex|
    ensures forall t :: 0 <= t < |row| ==> row[t] == Verdict(ctx, d, t)
  {
    seq(|ctx.rootIndex|, t requires 0 <= t < |ctx.rootIndex| => Verdict(ctx, d, t))
  }

  ghost function WorkOf(ctx: Ctx, data: seq<seq<byte>>): (w: Work)
    requires Searchable(ctx, data)
    ensures w.Valid() && w.tries == |ctx.rootIndex| && w.Packets() == |data|
    ensures forall p, t :: 0 <= p < |data| && 0 <= t < w.tries ==> w.verdicts[p][t] == Verdict(ctx, data[p], t)
  {
    Work(|ctx.rootIndex|, seq(|data|, p requires 0 <= p < |data| => Answers1(ctx, data[p])))
  }

  /** After `pos` offsets the traversal of trie `trie` over the packet is at `t`. */
  ghost predicate OnTrace(ctx: Ctx, d: seq<byte>, trie: nat, pos: nat, t: Transition) {
    && Finishes(ctx, d, trie)
    && 1 <= pos <= Depth(ctx, d, trie, 0) + 1
    && At(ctx, d, trie, pos - 1) == Some(t)
  }

  /** The slot's transition is where its traversal stands. */
  ghost predicate TraceOk(ctx: Ctx, data: seq<seq<byte>>, s: Slot, t: Transition)
    requires Searchable(ctx, data)
  {
    match s
    case Vacant => true
    case Idle(_) => t == IDLE
    case Busy(p, trie, pos, _) =>
      p < |data| && trie < |ctx.rootIndex| && OnTrace(ctx, data[p], trie, pos, t)
  }

  /** A match seen in a slot is the traversal's own end. */
  lemma MatchIsVerdict(ctx: Ctx, data: seq<seq<byte>>, s: Slot, t: Transition)
    requires Searchable(ctx, data) && TraceOk(ctx, data, s, t) && s.Busy?
    ensures t.kind.Match? <==> s.pos == Depth(ctx, data[s.packet], s.trie, 0) + 1
    ensures t.kind.Match? ==> t.addr < |ctx.records| && ctx.records[t.addr] == Verdict(ctx, data[s.packet], s.trie)
  {
    var n := Depth(ctx, data[s.packet], s.trie, 0);
    assert At(ctx, data[s.packet], s.trie, n).value.kind.Match?;
  }

  lemma RecordIsVerdict(ctx: Ctx, data: seq<seq<byte>>, w: Work, s: Slot, t: Transition)
    requires Searchable(ctx, data) && w == WorkOf(ctx, data) && TraceOk(ctx, data, s, t) && s.Busy? && t.kind.Match?
    ensures t.addr < |ctx.records| && ctx.records[t.addr] == w.verdicts[s.packet][s.trie]
  {
    MatchIsVerdict(ctx, data, s, t);
  }

  /** Where a traversal begins: the root's entry for the packet's first byte. */
  function FirstOf(ctx: Ctx, data: seq<seq<byte>>, p: nat, t: nat): Transition
    requires CanStart(ctx, data, p, t)
  {
    ctx.table[ctx.rootIndex[t] + data[p][ctx.dataIndex[t][0]]]
  }

  /** Reading the first transition stays in bounds. */
  predicate CanStart(ctx: Ctx, data: seq<seq<byte>>, p: nat, t: nat) {
    && p < |data| && t < |ctx.rootIndex| == |ctx.dataIndex|
    && |ctx.dataIndex[t]| > 0 && ctx.dataIndex[t][0] < |data[p]|
    && ctx.rootIndex[t] + data[p][ctx.dataIndex[t][0]] < |ctx.table|
  }

  lemma FirstTrace(ctx: Ctx, data: seq<seq<byte>>, p: nat, t: nat, c: nat)
    requires Searchable(ctx, data) && p < |data| && t < |ctx.rootIndex|
    ensures CanStart(ctx, data, p, t) && TraceOk(ctx, data, Busy(p, t, 1, c), FirstOf(ctx, data, p, t))
  {
    assert Finishes(ctx, data[p], t);
    assert At(ctx, data[p], t, 0).Some?;
    assert Stream(data[p], ctx.dataIndex[t], 0)[1..] == [];
  }

  /** The block that slot `s` reads next. */
  function BlockOf(ctx: Ctx, data: seq<seq<byte>>, s: Slot): seq<byte>
    requires CanRead(ctx, data, s)
  {
    if s.Busy? then
      var o := ctx.dataIndex[s.trie][s.pos];
      data[s.packet][o..o + 4]
    else Zeros(4)
  }

  predicate CanRead(ctx: Ctx, data: seq<seq<byte>>, s: Slot) {
    s.Busy? ==>
      && s.packet < |data| && s.trie < |ctx.dataIndex| && s.pos < |ctx.dataIndex[s.trie]|
      && ctx.dataIndex[s.trie][s.pos] + 4 <= |data[s.packet]|
  }

  /** Short of the match there is another block to read, and it continues the run. */
  lemma NextAt(ctx: Ctx, d: seq<byte>, t: nat, k: nat)
    requires Finishes(ctx, d, t) && 1 <= k <= Depth(ctx, d, t, 0) + 1 && !At(ctx, d, t, k - 1).value.kind.Match?
    ensures k <= Depth(ctx, d, t, 0) && ctx.dataIndex[t][k] + 4 <= |d|
    ensures At(ctx, d, t, k).Some?
    ensures At(ctx, d, t, k) ==
      Run(ctx.table, At(ctx, d, t, k - 1).value, d[ctx.dataIndex[t][k]..ctx.dataIndex[t][k] + 4])
  {
    assert k - 1 != Depth(ctx, d, t, 0);
    NextBlock(ctx, d, t, k);
  }

  lemma NextOnTrace(ctx: Ctx, d: seq<byte>, trie: nat, pos: nat, t: Transition)
    requires OnTrace(ctx, d, trie, pos, t) && !t.kind.Match?
    ensures pos < |ctx.dataIndex[trie]| && ctx.dataIndex[trie][pos] + 4 <= |d|
    ensures var after := Run(ctx.table, t, d[ctx.dataIndex[trie][pos]..ctx.dataIndex[trie][pos] + 4]);
      after.Some? && OnTrace(ctx, d, trie, pos + 1, after.value)
  {
    NextAt(ctx, d, trie, pos);
  }

  lemma NextBusyTrace(ctx: Ctx, data: seq<seq<byte>>, s: Slot, t: Transition)
    requires Searchable(ctx, data) && TraceOk(ctx, data, s, t) && s.Busy? && !t.kind.Match?
    ensures CanRead(ctx, data, s)
    ensures Run(ctx.table, t, BlockOf(ctx, data, s)).Some?
    ensures TraceOk(ctx, data, Moved(s), Run(ctx.table, t, BlockOf(ctx, data, s)).value)
  {
    NextOnTrace(ctx, data[s.packet], s.trie, s.pos, t);
  }

  lemma NextTrace(ctx: Ctx, data: seq<seq<byte>>, s: Slot, t: Transition)
    requires Searchable(ctx, data) && TraceOk(ctx, data, s, t) && !s.Vacant? && !t.kind.Match?
    ensures CanRead(ctx, data, s)
    ensures Run(ctx.table, t, BlockOf(ctx, data, s)).Some?
    ensures TraceOk(ctx, data, Moved(s), Run(ctx.table, t, BlockOf(ctx, data, s)).value)
  {
    if s.Busy? {
      NextBusyTrace(ctx, data, s, t);
    } else {
      IdleStays(ctx.table, Zeros(4));
    }
  }

  function Moved(s: Slot): Slot { if s.Vacant? then s else s.(pos := s.pos + 1) }

  ghost predicate TracesOk(ctx: Ctx, data: seq<seq<byte>>, slots: seq<Slot>, trans: seq<Transition>)
    requires Searchable(ctx, data)
  {
    |slots| == |trans| && forall i :: 0 <= i < |slots| ==> TraceOk(ctx, data, slots[i], trans[i])
  }

  lemma TraceUpdated(ctx: Ctx, data: seq<seq<byte>>, slots: seq<Slot>, trans: seq<Transition>, i: nat, s: Slot,
      t: Transition)
    requires Searchable(ctx, data) && TracesOk(ctx, data, slots, trans) && i < |slots| && TraceOk(ctx, data, s, t)
    ensures TracesOk(ctx, data, slots[i := s], trans[i := t])
  {
  }

  /** The transition that a refilled slot gets. */
  function NewTransition(ctx: Ctx, data: seq<seq<byte>>, p: nat, t: nat): Transition
    requires p < |data| ==> CanStart(ctx, data, p, t)
  {
    if p < |data| then FirstOf(ctx, data, p, t) else IDLE
  }

  lemma StartTraces(ctx: Ctx, data: seq<seq<byte>>, w: Work, st: State, i: nat, trans: seq<Transition>)
    requires Searchable(ctx, data) && w == WorkOf(ctx, data) && Shape(w, st) && i < |st.slots|
    requires TracesOk(ctx, data, st.slots, trans)
    ensures st.packets < |data| ==> CanStart(ctx, data, st.packets, st.trie)
    ensures TracesOk(ctx, data, Start(w, st, i).slots, trans[i := NewTransition(ctx, data, st.packets, st.trie)])
  {
    if st.packets < |data| {
      FirstTrace(ctx, data, st.packets, st.trie, Start(w, st, i).last);
    }
  }

  lemma RefillTraces(ctx: Ctx, data: seq<seq<byte>>, w: Work, st: State, i: nat, trans: seq<Transition>)
    requires Searchable(ctx, data) && w == WorkOf(ctx, data) && Shape(w, st) && i < |st.slots|
    requires TracesOk(ctx, data, st.slots, trans) && st.slots[i].Busy? && JobOk(w, st, st.slots[i])
    ensures st.packets < |data| ==> CanStart(ctx, data, st.packets, st.trie)
    ensures TracesOk(ctx, data, Refill(w, st, i).slots, trans[i := NewTransition(ctx, data, st.packets, st.trie)])
  {
    var st' := Finish(w, st, i);
    assert TracesOk(ctx, data, st'.slots, trans);
    StartTraces(ctx, data, w, st', i, trans);
  }

  /** The slot's transition after its next block. */
  function AfterBlock(ctx: Ctx, data: seq<seq<byte>>, s: Slot, t: Transition): Transition
    requires CanRead(ctx, data, s) && Run(ctx.table, t, BlockOf(ctx, data, s)).Some?
  {
    Run(ctx.table, t, BlockOf(ctx, data, s)).value
  }

  lemma ReadTraces(ctx: Ctx, data: seq<seq<byte>>, slots: seq<Slot>, i: nat, trans: seq<Transition>)
    requires Searchable(ctx, data) && TracesOk(ctx, data, slots, trans) && i < |slots|
    requires !slots[i].Vacant? && !trans[i].kind.Match?
    ensures CanRead(ctx, data, slots[i]) && Run(ctx.table, trans[i], BlockOf(ctx, data, slots[i])).Some?
    ensures TracesOk(ctx, data, slots[i := Moved(slots[i])], trans[i := AfterBlock(ctx, data, slots[i], trans[i])])
  {
    assert TraceOk(ctx, data, slots[i], trans[i]);
    NextTrace(ctx, data, slots[i], trans[i]);
    TraceUpdated(ctx, data, slots, trans, i, Moved(slots[i]), AfterBlock(ctx, data, slots[i], trans[i]));
  }

  // ----- what a pass over the slots does

  /** What the checking loops look at: finished traversals, slots, transitions. */
  datatype View = View(gone: nat, slots: seq<Slot>, trans: seq<Transition>)

  ghost predicate AllFilled(slots: seq<Slot>) {
    forall i :: 0 <= i < |slots| ==> !slots[i].Vacant?
  }

  predicate Within(group: seq<nat>, n: nat) {
    forall k :: 0 <= k < |group| ==> group[k] < n
  }

  predicate AnyMatch(trans: seq<Transition>, group: seq<nat>, n: nat)
    requires Within(group, |trans|) && n <= |group|
  {
    exists k :: 0 <= k < n && trans[group[k]].kind.Match?
  }

  /** Only slot `i` may have changed, and it has exactly if it was at a match. */
  ghost predicate CheckedOne(a: View, b: View, i: nat) {
    && |a.slots| == |a.trans| == |b.slots| == |b.trans| && i < |a.slots|
    && b.slots == a.slots[i := b.slots[i]] && b.trans == a.trans[i := b.trans[i]]
    && !b.slots[i].Vacant?
    && (if a.trans[i].kind.Match? then b.gone == a.gone + 1 else b == a)
  }

  /** The first `k` slots of the group have been checked. */
  ghost predicate Checked(a: View, b: View, group: seq<nat>, k: nat) {
    && |a.slots| == |a.trans| == |b.slots| == |b.trans| && Within(group, |a.slots|) && k <= |group|
    && AllFilled(b.slots)
    && b.gone >= a.gone
    && (b.gone == a.gone ==> b == a && !AnyMatch(a.trans, group, k))
    && forall i :: 0 <= i < |a.slots| && i !in group ==> b.slots[i] == a.slots[i] && b.trans[i] == a.trans[i]
  }

  lemma CheckedMore(a: View, b: View, c: View, group: seq<nat>, k: nat)
    requires k < |group| && Checked(a, b, group, k) && CheckedOne(b, c, group[k])
    ensures Checked(a, c, group, k + 1)
  {
  }

  /** Like Checked, for any number of passes over the group. */
  ghost predicate Settled(a: View, b: View, group: seq<nat>) {
    && |a.slots| == |a.trans| == |b.slots| == |b.trans| && Within(group, |a.slots|)
    && AllFilled(b.slots)
    && b.gone >= a.gone
    && (b.gone == a.gone ==> b == a)
    && forall i :: 0 <= i < |a.slots| && i !in group ==> b.slots[i] == a.slots[i] && b.trans[i] == a.trans[i]
  }

  lemma SettledMore(a: View, b: View, c: View, group: seq<nat>)
    requires Settled(a, b, group) && Checked(b, c, group, |group|) && AnyMatch(b.trans, group, |group|)
    ensures Settled(a, c, group) && c.gone > b.gone
  {
  }

  /** The groups cover all slots. */
  ghost predicate Groups(groups: seq<seq<nat>>, n: nat) {
    && (forall g :: 0 <= g < |groups| ==> Within(groups[g], n))
    && forall i :: 0 <= i < n ==> InSome(groups, i)
  }

  ghost predicate InSome(groups: seq<seq<nat>>, i: nat) {
    exists g :: 0 <= g < |groups| && i in groups[g]
  }

  ghost predicate NoMatches(trans: seq<Transition>) {
    forall i :: 0 <= i < |trans| ==> !trans[i].kind.Match?
  }

  ghost predicate GroupClean(trans: seq<Transition>, group: seq<nat>) {
    forall i :: i in group ==> i < |trans| && !trans[i].kind.Match?
  }

  ghost predicate GroupsClean(trans: seq<Transition>, groups: seq<seq<nat>>, n: nat)
    requires n <= |groups|
  {
    forall g :: 0 <= g < n ==> GroupClean(trans, groups[g])
  }

  lemma CleanMore(a: View, b: View, groups: seq<seq<nat>>, g: nat)
    requires g < |groups| && GroupsClean(a.trans, groups, g) && Settled(a, b, groups[g])
    requires !AnyMatch(b.trans, groups[g], |groups[g]|)
    ensures GroupsClean(b.trans, groups, g + 1)
  {
    assert forall k :: 0 <= k < |groups[g]| ==> !b.trans[groups[g][k]].kind.Match?;
    assert GroupClean(b.trans, groups[g]);
    forall h | 0 <= h < g
      ensures GroupClean(b.trans, groups[h])
    {
      assert GroupClean(a.trans, groups[h]);
    }
  }

  lemma AllClean(trans: seq<Transition>, groups: seq<seq<nat>>)
    requires Groups(groups, |trans|) && GroupsClean(trans, groups, |groups|)
    ensures NoMatches(trans)
  {
    forall i | 0 <= i < |trans|
      ensures !trans[i].kind.Match?
    {
      assert InSome(groups, i);
      var g :| 0 <= g < |groups| && i in groups[g];
      assert GroupClean(trans, groups[g]);
    }
  }

  /** The slots from `i` on have not been touched in this round. */
  ghost predicate Unread(start: seq<Slot>, slots: seq<Slot>, trans: seq<Transition>, i: nat) {
    && |start| == |slots| == |trans|
    && (forall j :: i <= j < |slots| ==> slots[j] == start[j])
    && (forall j :: i <= j < |trans| ==> !trans[j].kind.Match?)
  }

  /** Data offsets that the busy slots have not read yet. */
  ghost function InputLeft(ctx: Ctx, slots: seq<Slot>, k: nat): int
    requires k <= |slots|
  {
    if k == 0 then 0 else InputLeft(ctx, slots, k - 1) + OffsetsLeft(ctx, slots[k - 1])
  }

  ghost function OffsetsLeft(ctx: Ctx, s: Slot): int {
    if s.Busy? && s.trie < |ctx.dataIndex| then |ctx.dataIndex[s.trie]| - s.pos else 0
  }

  lemma {:induction false} InputLeftUpdate(ctx: Ctx, slots: seq<Slot>, i: nat, s: Slot, k: nat)
    requires i < |slots| && k <= |slots|
    ensures InputLeft(ctx, slots[i := s], k) == InputLeft(ctx, slots, k) +
            (if i < k then OffsetsLeft(ctx, s) - OffsetsLeft(ctx, slots[i]) else 0)
  {
    if k > 0 {
      InputLeftUpdate(ctx, slots, i, s, k - 1);
    }
  }

  /** Slot `i` has read a block. */
  ghost predicate ReadOne(ctx: Ctx, a: View, b: View, i: nat) {
    && |a.slots| == |a.trans| == |b.slots| == |b.trans| && i < |a.slots| && a.gone == b.gone
    && b.slots == a.slots[i := Moved(a.slots[i])] && b.trans == a.trans[i := b.trans[i]]
    && !b.slots[i].Vacant?
    && InputLeft(ctx, b.slots, |b.slots|) == InputLeft(ctx, a.slots, |a.slots|) - (if a.slots[i].Busy? then 1 else 0)
  }

  /** The slots before `i` have read a block. */
  ghost predicate ReadUpTo(ctx: Ctx, a: View, b: View, i: nat) {
    && |a.slots| == |a.trans| == |b.slots| == |b.trans| && i <= |a.slots| && a.gone == b.gone
    && AllFilled(b.slots) && Unread(a.slots, b.slots, b.trans, i)
    && (forall j :: 0 <= j < i ==> b.slots[j] == Moved(a.slots[j]))
    && InputLeft(ctx, b.slots, |b.slots|) + CountBusy(a.slots, i) == InputLeft(ctx, a.slots, |a.slots|)
  }

  lemma ReadIsOne(ctx: Ctx, data: seq<seq<byte>>, st: State, i: nat, gone: nat, trans: seq<Transition>)
    requires Searchable(ctx, data) && TracesOk(ctx, data, st.slots, trans) && i < |st.slots|
    requires !st.slots[i].Vacant? && CanRead(ctx, data, st.slots[i])
    requires Run(ctx.table, trans[i], BlockOf(ctx, data, st.slots[i])).Some?
    ensures Advance(st, i).slots == st.slots[i := Moved(st.slots[i])]
    ensures ReadOne(ctx, View(gone, st.slots, trans),
                    View(gone, Advance(st, i).slots, trans[i := AfterBlock(ctx, data, st.slots[i], trans[i])]), i)
  {
    assert Advance(st, i).slots == st.slots[i := Moved(st.slots[i])];
    InputLeftUpdate(ctx, st.slots, i, Moved(st.slots[i]), |st.slots|);
  }

  lemma ReadMore(ctx: Ctx, a: View, b: View, c: View, i: nat)
    requires i < |a.slots| && ReadUpTo(ctx, a, b, i) && ReadOne(ctx, b, c, i)
    ensures ReadUpTo(ctx, a, c, i + 1)
  {
  }

  lemma {:induction false} InputLeftNonNegative(ctx: Ctx, data: seq<seq<byte>>, slots: seq<Slot>,
      trans: seq<Transition>, k: nat)
    requires Searchable(ctx, data) && TracesOk(ctx, data, slots, trans) && k <= |slots|
    ensures InputLeft(ctx, slots, k) >= 0
  {
    if k > 0 {
      InputLeftNonNegative(ctx, data, slots, trans, k - 1);
      assert TraceOk(ctx, data, slots[k - 1], trans[k - 1]);
    }
  }

  // ----- how far a parked slot reads

  /** The most data offsets that a trie has. */
  ghost function Longest(ctx: Ctx, n: nat): (m: nat)
    requires n <= |ctx.dataIndex|
    ensures forall t :: 0 <= t < n ==> |ctx.dataIndex[t]| <= m
    ensures n > 0 ==> exists t :: 0 <= t < n && |ctx.dataIndex[t]| == m
  {
    if n == 0 then 0
    else var m := Longest(ctx, n - 1); if m < |ctx.dataIndex[n - 1]| then |ctx.dataIndex[n - 1]| else m
  }

  /** A parked slot has read no more than `m` entries of the idle array, and will not while others are busy. */
  ghost predicate Leash(ctx: Ctx, slots: seq<Slot>, m: nat) {
    && (forall i :: 0 <= i < |slots| && slots[i].Idle? ==> slots[i].pos <= m)
    && (forall i, j :: 0 <= i < |slots| && 0 <= j < |slots| && slots[i].Idle? && slots[j].Busy? ==>
          slots[i].pos + OffsetsLeft(ctx, slots[j]) <= m)
  }

  /** A round of reading keeps the leash: a busy slot that is not at a match has an offset left. */
  lemma ReadLeash(ctx: Ctx, data: seq<seq<byte>>, a: View, b: View, m: nat, j: nat)
    requires Searchable(ctx, data) && TracesOk(ctx, data, a.slots, a.trans) && NoMatches(a.trans)
    requires Leash(ctx, a.slots, m) && ReadUpTo(ctx, a, b, |a.slots|) && j < |a.slots| && a.slots[j].Busy?
    ensures Leash(ctx, b.slots, m)
  {
    forall k | 0 <= k < |a.slots| && a.slots[k].Busy? ensures OffsetsLeft(ctx, a.slots[k]) >= 1 {
      assert TraceOk(ctx, data, a.slots[k], a.trans[k]);
      MatchIsVerdict(ctx, data, a.slots[k], a.trans[k]);
    }
  }

  lemma AtMostLongest(ctx: Ctx, s: Slot)
    ensures OffsetsLeft(ctx, s) <= Longest(ctx, |ctx.dataIndex|)
  {
  }

  lemma LeashUpdate(ctx: Ctx, slots: seq<Slot>, i: nat, s: Slot)
    requires Leash(ctx, slots, Longest(ctx, |ctx.dataIndex|)) && i < |slots|
    requires s.Idle? ==> s.pos == 0
    requires s.Busy? ==> forall j :: 0 <= j < |slots| ==> !slots[j].Idle?
    ensures Leash(ctx, slots[i := s], Longest(ctx, |ctx.dataIndex|))
  {
    forall j | 0 <= j < |slots| ensures OffsetsLeft(ctx, slots[j]) <= Longest(ctx, |ctx.dataIndex|) {
      AtMostLongest(ctx, slots[j]);
    }
  }

  /** Filling a slot keeps it: nothing starts any more once a slot is parked. */
  lemma StartLeash(ctx: Ctx, w: Work, st: State, i: nat)
    requires w.Valid() && Shape(w, st) && Counts(w, st) && i < |st.slots|
    requires Leash(ctx, st.slots, Longest(ctx, |ctx.dataIndex|))
    ensures Leash(ctx, Start(w, st, i).slots, Longest(ctx, |ctx.dataIndex|))
  {
    LeashUpdate(ctx, st.slots, i, Start(w, st, i).slots[i]);
    assert Start(w, st, i).slots == st.slots[i := Start(w, st, i).slots[i]];
  }

  lemma RefillLeash(ctx: Ctx, w: Work, st: State, i: nat)
    requires w.Valid() && Inv(w, st) && i < |st.slots| && st.slots[i].Busy? && JobOk(w, st, st.slots[i])
    requires Leash(ctx, st.slots, Longest(ctx, |ctx.dataIndex|))
    ensures Leash(ctx, Refill(w, st, i).slots, Longest(ctx, |ctx.dataIndex|))
  {
    FinishCounts(w, st, i);
    LeashUpdate(ctx, st.slots, i, Vacant);
    StartLeash(ctx, w, Finish(w, st, i), i);
  }

  /** Every slot is parked and has read no further in the idle array than the longest trie reads in a packet. */
  ghost predicate Parked(ctx: Ctx, slots: seq<Slot>) {
    forall i :: 0 <= i < |slots| ==> slots[i].Idle? && slots[i].pos <= Longest(ctx, |ctx.dataIndex|)
  }

  lemma ParkedAtEnd(ctx: Ctx, w: Work, st: State)
    requires w.Valid() && Inv(w, st) && st.started == 0 && AllFilled(st.slots)
    requires Leash(ctx, st.slots, Longest(ctx, |ctx.dataIndex|))
    ensures Parked(ctx, st.slots)
  {
    AllParked(st.slots, |st.slots|);
  }

  lemma {:induction false} SomeBusy(slots: seq<Slot>, k: nat) returns (j: nat)
    requires k <= |slots| && CountBusy(slots, k) > 0
    ensures j < k && slots[j].Busy?
    decreases k
  {
    if slots[k - 1].Busy? {
      j := k - 1;
    } else {
      j := SomeBusy(slots, k - 1);
    }
  }

  lemma {:induction false} AllParked(slots: seq<Slot>, k: nat)
    requires k <= |slots| && AllFilled(slots) && CountBusy(slots, k) == 0
    ensures forall i :: 0 <= i < k ==> slots[i].Idle?
    decreases k
  {
    if k > 0 {
      AllParked(slots, k - 1);
    }
  }

  /** The slots from `i` on are vacant, the ones before are filled. */
  ghost predicate AllVacant(slots: seq<Slot>, i: nat) {
    && (forall j :: 0 <= j < i && j < |slots| ==> !slots[j].Vacant?)
    && forall j :: i <= j < |slots| ==> slots[j].Vacant?
  }

  class Searcher {
    const ctx: Ctx
    const data: seq<seq<byte>>
    ghost const w: Work
    // flow data
    var packets: nat
    var trie: nat
    var started: nat
    var last: nat
    const cmplt: array<Completion>
    // per slot: parameters and current transition
    const slots: array<Slot>
    const trans: array<Transition>
    const results: array<nat>
    ghost var done: seq<set<nat>>
    ghost var best: seq<int>

    ghost function Now(): State
      reads this, cmplt, slots, results
    {
      State(packets, trie, started, last, cmplt[..], slots[..], results[..], done, best)
    }

    /** The state has the right shape for the code to run. */
    ghost predicate Sized()
      reads this, cmplt, slots, trans, results
    {
      && w.Valid() && w.tries == |ctx.rootIndex| && w.Packets() == |data|
      && Shape(w, Now())
      && trans.Length == slots.Length
    }

    ghost predicate Valid()
      reads this, cmplt, slots, trans, results
    {
      && Searchable(ctx, data) && w == WorkOf(ctx, data)
      && Inv(w, Now())
      && TracesOk(ctx, data, slots[..], trans[..])
    }

    /** No parked slot reads the idle array further than the longest trie reads its packet. */
    ghost predicate Leashed()
      reads this, slots
    {
      Leash(ctx, slots[..], Longest(ctx, |ctx.dataIndex|))
    }

    /** Sets the flow up; completions start free, slots start vacant. */
    constructor (ctx: Ctx, data: seq<seq<byte>>, n: nat, results: array<nat>)
      requires Searchable(ctx, data) && results.Length == |data|
      ensures Valid() && this.ctx == ctx && this.data == data && this.results == results
      ensures fresh(cmplt) && fresh(slots) && fresh(trans)
      ensures slots.Length == n && AllVacant(slots[..], 0)
    {
      this.ctx, this.data, this.results := ctx, data, results;
      w := WorkOf(ctx, data);
      packets, trie, started, last := 0, 0, 0, 0;
      cmplt := new Completion[n](_ => Completion(0, 0, 0));
      slots := new Slot[n](_ => Vacant);
      trans := new Transition[n](_ => NO_MATCH);
      done := seq(|data|, _ => {});
      best := seq(|data|, _ => 0);
      new;
      InitHolds(w, n, cmplt[..], results[..]);
      assert Now() == Init(w, n, cmplt[..], results[..]);
    }

    /** Scans for a free completion and claims it. */
    method AllocCompletion(packet: nat, tries: nat) returns (c: nat)
      modifies cmplt
      ensures c == FirstFree(old(cmplt[..]), 0)
      ensures cmplt[..] ==
        if c < cmplt.Length then old(cmplt[..])[c := Completion(packet, old(cmplt[..])[c].priority, tries)]
                           else old(cmplt[..])
    {
      c := 0;
      while c < cmplt.Length
        invariant c <= cmplt.Length && cmplt[..] == old(cmplt[..])
        invariant FirstFree(old(cmplt[..]), 0) == FirstFree(old(cmplt[..]), c)
      {
        if cmplt[c].count == 0 {
          cmplt[c] := Completion(packet, cmplt[c].priority, tries);
          return;
        }
        c := c + 1;
      }
    }

    /** Starts the next traversal in slot `i`, or parks the slot. */
    method StartNextTrie(i: nat)
      requires Sized() && i < slots.Length && (packets < |data| ==> CanStart(ctx, data, packets, trie))
      modifies this`packets, this`trie, this`started, this`last, cmplt, slots, trans
      ensures Now() == Start(w, old(Now()), i)
      ensures trans[..] == old(trans[..])[i := NewTransition(ctx, data, old(packets), old(trie))]
    {
      if packets < |data| {
        Begin(i);
      } else {
        slots[i] := Idle(0);
        trans[i] := IDLE;
      }
    }

    method Begin(i: nat)
      requires Sized() && i < slots.Length && packets < |data| && CanStart(ctx, data, packets, trie)
      modifies this`packets, this`trie, this`started, this`last, cmplt, slots, trans
      ensures Now() == Start(w, old(Now()), i)
      ensures trans[..] == old(trans[..])[i := FirstOf(ctx, data, old(packets), old(trie))]
    {
      if trie == 0 {
        last := AllocCompletion(packets, |ctx.rootIndex|);
      }
      slots[i] := Busy(packets, trie, 1, last);
      assert slots[..] == old(slots[..])[i := Busy(packets, trie, 1, last)];
      trans[i] := ctx.table[ctx.rootIndex[trie] + data[packets][ctx.dataIndex[trie][0]]];
      trie := trie + 1;
      if trie >= |ctx.rootIndex| {
        trie := 0;
        packets := packets + 1;
      }
      started := started + 1;
    }

    /** The first of a packet's tries to finish always sets the answer; a later
        one replaces it when its priority is at least as high. */
    method ResolvePriority(s: Slot, record: Record) returns (c: Completion)
      requires s.Busy? && s.cmplt < cmplt.Length && s.packet < results.Length && cmplt[s.cmplt].count > 0
      modifies cmplt, results
      ensures var was := old(cmplt[s.cmplt]);
              var take := was.count == |ctx.rootIndex| || was.priority <= record.priority;
              && c == Completion(was.packet, if take then record.priority else was.priority, was.count - 1)
              && results[..] == if take then old(results[..])[s.packet := record.result] else old(results[..])
      ensures cmplt[..] == old(cmplt[..])[s.cmplt := c]
    {
      c := cmplt[s.cmplt];
      if c.count == |ctx.rootIndex| || c.priority <= record.priority {
        c := c.(priority := record.priority);
        results[s.packet] := record.result;
      }
      c := c.(count := c.count - 1);
      cmplt[s.cmplt] := c;
    }

    /** Counts a finished traversal down and vacates its slot. */
    method FinishTrie(i: nat)
      requires Sized() && i < slots.Length && slots[i].Busy? && JobOk(w, Now(), slots[i]) && started > 0
      requires trans[i].addr < |ctx.records|
      requires ctx.records[trans[i].addr] == w.verdicts[slots[i].packet][slots[i].trie]
      modifies this`started, this`done, this`best, cmplt, slots, results
      ensures Now() == Finish(w, old(Now()), i)
    {
      var s := slots[i];
      started := started - 1;
      var c := ResolvePriority(s, ctx.records[trans[i].addr]);
      done := done[s.packet := done[s.packet] + {s.trie}];
      best := best[s.packet := c.priority];
      slots[i] := Vacant;
    }

    /** A slot at a match is finished and refilled; any other slot is left alone. */
    method MatchCheck(i: nat)
      requires Valid() && i < slots.Length && !slots[i].Vacant?
      modifies this`packets, this`trie, this`started, this`last, this`done, this`best, cmplt, slots, trans, results
      ensures Valid()
      ensures if old(trans[i]).kind.Match?
              then old(slots[i]).Busy? && JobOk(w, old(Now()), old(slots[i])) && Now() == Refill(w, old(Now()), i) &&
                   trans[..] == old(trans[..])[i := trans[i]]
              else Now() == old(Now()) && trans[..] == old(trans[..])
    {
      if trans[i].kind.Match? {
        ghost var st := Now();
        assert TraceOk(ctx, data, slots[i], trans[i]);
        RefillKeeps(w, st, i);
        RecordIsVerdict(ctx, data, w, slots[i], trans[i]);
        RefillTraces(ctx, data, w, st, i, trans[..]);
        ghost var st' := Refill(w, st, i);
        FinishTrie(i);
        StartNextTrie(i);
        assert Now() == st';
      }
    }

    /** Traversals finished so far. */
    ghost function Gone(): nat
      reads this
    {
      Finished(done, |done|)
    }
 
    /** Reads one block for slot `i`: four bytes at the next data offset, or
        zeros for a parked slot. */
    method ReadBlock(i: nat)
      requires Sized() && i < slots.Length && CanRead(ctx, data, slots[i])
      requires Run(ctx.table, trans[i], BlockOf(ctx, data, slots[i])).Some?
      modifies slots, trans
      ensures Now() == Advance(old(Now()), i)
      ensures trans[..] == old(trans[..])[i := AfterBlock(ctx, data, old(slots[i]), old(trans[i]))]
    {
      var s := slots[i];
      trans[i] := StepBlock(ctx.table, trans[i], BlockOf(ctx, data, s));
      if !s.Vacant? {
        slots[i] := s.(pos := s.pos + 1);
      }
    }

    /** Traversals still to finish. */
    ghost function ToGo(): int
      reads this
    {
      Times(w.Packets(), w.tries) - Gone()
    }

    ghost function Seen(): View
      reads this, slots, trans
    {
      View(Gone(), slots[..], trans[..])
    }

    /** MatchCheck, as the loops below see it. */
    method CheckSlot(i: nat)
      requires Valid() && Leashed() && i < slots.Length && !slots[i].Vacant?
      modifies this`packets, this`trie, this`started, this`last, this`done, this`best, cmplt, slots, trans, results
      ensures Valid() && Leashed() && CheckedOne(old(Seen()), Seen(), i)
    {
      ghost var st := Now();
      if trans[i].kind.Match? {
        assert TraceOk(ctx, data, slots[i], trans[i]);
        RefillKeeps(w, st, i);
        RefillLeash(ctx, w, st, i);
      }
      MatchCheck(i);
    }

    /** One pass over a group of slots. */
    method CheckPass(group: seq<nat>)
      requires Valid() && Leashed() && AllFilled(slots[..]) && Within(group, slots.Length)
      modifies this`packets, this`trie, this`started, this`last, this`done, this`best, cmplt, slots, trans, results
      ensures Valid() && Leashed() && Checked(old(Seen()), Seen(), group, |group|)
    {
      ghost var start := Seen();
      for k := 0 to |group|
        invariant Valid() && Leashed() && Checked(start, Seen(), group, k)
      {
        ghost var before := Seen();
        CheckSlot(group[k]);
        CheckedMore(start, before, Seen(), group, k);
      }
    }
 
    /** Checks a group again and again until none of its slots is at a match:
        a refilled slot may be at a match at once. */
    method CheckGroup(group: seq<nat>)
      requires Valid() && Leashed() && AllFilled(slots[..]) && Within(group, slots.Length)
      modifies this`packets, this`trie, this`started, this`last, this`done, this`best, cmplt, slots, trans, results
      ensures Valid() && Leashed() && Settled(old(Seen()), Seen(), group) && !AnyMatch(trans[..], group, |group|)
    {
      ghost var start := Seen();
      while AnyMatch(trans[..], group, |group|)
        invariant Valid() && Leashed() && Settled(start, Seen(), group)
        decreases ToGo()
      {
        FinishedBound(w, Now());
        ghost var before := Seen();
        CheckPass(group);
        SettledMore(start, before, Seen(), group);
      }
    }

    /** Checks all groups; afterwards no slot is at a match. */
    method CheckAll(groups: seq<seq<nat>>)
      requires Valid() && Leashed() && AllFilled(slots[..]) && Groups(groups, slots.Length)
      modifies this`packets, this`trie, this`started, this`last, this`done, this`best, cmplt, slots, trans, results
      ensures Valid() && Leashed() && AllFilled(slots[..]) && NoMatches(trans[..])
      ensures Gone() >= old(Gone()) && (Gone() == old(Gone()) ==> slots[..] == old(slots[..]))
    {
      ghost var start := Seen();
      for g := 0 to |groups|
        invariant Valid() && Leashed() && AllFilled(slots[..]) && GroupsClean(trans[..], groups, g)
        invariant Gone() >= start.gone && (Gone() == start.gone ==> slots[..] == start.slots)
      {
        ghost var before := Seen();
        CheckGroup(groups[g]);
        CleanMore(before, Seen(), groups, g);
      }
      AllClean(trans[..], groups);
    }

    /** ReadBlock, as the loop below sees it. */
    method ReadSlot(i: nat)
      requires Valid() && i < slots.Length && !slots[i].Vacant? && !trans[i].kind.Match?
      modifies slots, trans
      ensures Valid() && ReadOne(ctx, old(Seen()), Seen(), i)
    {
      ghost var st, t := Now(), trans[..];
      AdvanceKeeps(w, st, i);
      ReadTraces(ctx, data, st.slots, i, t);
      ReadIsOne(ctx, data, st, i, Gone(), t);
      ghost var st' := Advance(st, i);
      ReadBlock(i);
      assert Now() == st' && trans[..] == t[i := AfterBlock(ctx, data, st.slots[i], t[i])];
    }

    /** Every slot reads a block. */
    method ReadAll()
      requires Valid() && AllFilled(slots[..]) && NoMatches(trans[..])
      modifies slots, trans
      ensures Valid() && ReadUpTo(ctx, old(Seen()), Seen(), slots.Length)
    {
      ghost var start := Seen();
      for i := 0 to slots.Length
        invariant Valid() && ReadUpTo(ctx, start, Seen(), i)
      {
        ghost var before := Seen();
        assert !before.slots[i].Vacant? && !before.trans[i].kind.Match?;
        ReadSlot(i);
        ReadMore(ctx, start, before, Seen(), i);
      }
    }

    /** One round of the main loop makes progress: a traversal finishes, or input is used up. */
    method Round(groups: seq<seq<nat>>)
      requires Valid() && Leashed() && AllFilled(slots[..]) && NoMatches(trans[..]) &&
        Groups(groups, slots.Length) && started > 0
      modifies this`packets, this`trie, this`started, this`last, this`done, this`best, cmplt, slots, trans, results
      ensures Valid() && Leashed() && AllFilled(slots[..]) && NoMatches(trans[..])
      ensures ToGo() >= 0 && InputLeft(ctx, slots[..], slots.Length) >= 0
      ensures Gone() > old(Gone()) ||
        (&& Gone() == old(Gone())
         && InputLeft(ctx, slots[..], slots.Length) < InputLeft(ctx, old(slots[..]), slots.Length))
    {
      assert CountBusy(slots[..], slots.Length) == started;
      ghost var before := Seen();
      ghost var j := SomeBusy(slots[..], slots.Length);
      ReadAll();
      ReadLeash(ctx, data, before, Seen(), Longest(ctx, |ctx.dataIndex|), j);
      CheckAll(groups);
      FinishedBound(w, Now());
      InputLeftNonNegative(ctx, data, slots[..], trans[..], slots.Length);
    }

    /** The main loop: runs until no traversal is in progress. */
    method Drain(groups: seq<seq<nat>>)
      requires Valid() && Leashed() && AllFilled(slots[..]) && NoMatches(trans[..]) && Groups(groups, slots.Length)
      modifies this`packets, this`trie, this`started, this`last, this`done, this`best, cmplt, slots, trans, results
      ensures Valid() && Leashed() && AllFilled(slots[..]) && started == 0
    {
      FinishedBound(w, Now());
      InputLeftNonNegative(ctx, data, slots[..], trans[..], slots.Length);
      while started > 0
        invariant Valid() && Leashed() && AllFilled(slots[..]) && NoMatches(trans[..])
        invariant ToGo() >= 0 && InputLeft(ctx, slots[..], slots.Length) >= 0
        decreases ToGo(), InputLeft(ctx, slots[..], slots.Length)
      {
        Round(groups);
      }
    }

    /** The whole search: fill the slots, then alternate reading and checking
        until nothing runs.  Ends with every packet answered. */
    method Search(groups: seq<seq<nat>>)
      requires Valid() && slots.Length > 0 && Groups(groups, slots.Length) && AllVacant(slots[..], 0)
      modifies this`packets, this`trie, this`started, this`last, this`done, this`best, cmplt, slots, trans, results
      ensures Valid() && started == 0
      ensures Gone() == Times(w.Packets(), w.tries)
      ensures AllTop(w, results[..])
      ensures Parked(ctx, slots[..])
    {
      FillSlots();
      CheckAll(groups);
      Drain(groups);
      ParkedAtEnd(ctx, w, Now());
      AllTopAtEnd(w, Now());
    }

    method FillSlots()
      requires Valid() && AllVacant(slots[..], 0)
      modifies this`packets, this`trie, this`started, this`last, cmplt, slots, trans
      ensures Valid() && Leashed() && AllFilled(slots[..])
    {
      for i := 0 to slots.Length
        invariant Valid() && Leashed() && AllVacant(slots[..], i)
      {
        FillSlot(i);
      }
    }

    method FillSlot(i: nat)
      requires Valid() && Leashed() && i < slots.Length && AllVacant(slots[..], i)
      modifies this`packets, this`trie, this`started, this`last, cmplt, slots, trans
      ensures Valid() && Leashed() && AllVacant(slots[..], i + 1)
    {
      ghost var st := Now();
      StartKeeps(w, st, i);
      StartLeash(ctx, w, st, i);
      StartTraces(ctx, data, w, st, i, trans[..]);
      StartNextTrie(i);
      assert slots[..] == st.slots[i := slots[i]];
    }
  }
}
