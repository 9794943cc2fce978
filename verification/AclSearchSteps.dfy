/** Every step of the search keeps its invariant. */
module AclSearchSteps {
  import opened AclTrie
  import opened AclSearch

  // ----- finishing a traversal

  /** After finishing, a completion shared with another busy slot is still live. */
  lemma FinishJobs(w: Work, st: State, i: nat, j: nat)
    requires w.Valid() && Inv(w, st) && i < |st.slots| && st.slots[i].Busy?
    requires j < |st.slots| && j != i && st.slots[j].Busy?
    ensures Shape(w, Finish(w, st, i))
    ensures JobOk(w, Finish(w, st, i), st.slots[j])
  {
    var s, r := st.slots[i], st.slots[j];
    var st' := Finish(w, st, i);
    assert JobOk(w, st, s) && JobOk(w, st, r);
    assert r.packet != s.packet || r.trie != s.trie;
    if r.cmplt == s.cmplt {
      assert OwnerOk(w, st, st.cmplt[s.cmplt]);
      ProperSubsetSize(st'.done[r.packet], w.tries, r.trie);
    }
  }

  lemma FinishCoverage(w: Work, st: State, i: nat)
    requires w.Valid() && Inv(w, st) && i < |st.slots| && st.slots[i].Busy?
    ensures Shape(w, Finish(w, st, i)) && Coverage(w, Finish(w, st, i))
  {
    var s := st.slots[i];
    assert JobOk(w, st, s);
    var st' := Finish(w, st, i);
    forall p: nat, t: nat | p < w.Packets() && t < w.tries && Begun(st', p, t) && t !in st'.done[p]
      ensures HasSlot(st', p, t)
    {
      assert Begun(st, p, t) && HasSlot(st, p, t);
      var j :| 0 <= j < |st.slots| && st.slots[j].Busy? && st.slots[j].packet == p && st.slots[j].trie == t;
      assert st'.slots[j] == st.slots[j];
    }
  }

  lemma FinishOwnership(w: Work, st: State, i: nat)
    requires w.Valid() && Inv(w, st) && i < |st.slots| && st.slots[i].Busy?
    ensures Shape(w, Finish(w, st, i)) && Ownership(w, Finish(w, st, i))
  {
    var s := st.slots[i];
    assert JobOk(w, st, s);
    var st' := Finish(w, st, i);
    forall c | 0 <= c < |st'.cmplt| && st'.cmplt[c].count > 0
      ensures OwnerOk(w, st', st'.cmplt[c])
    {
      assert OwnerOk(w, st, st.cmplt[c]);
    }
    if st.trie > 0 && st.packets == s.packet {
      forall t | t in st'.done[s.packet]
        ensures t < st.trie
      {
      }
      SubsetSize(st'.done[s.packet], st.trie);
      assert OwnerOk(w, st, st.cmplt[s.cmplt]);
    }
  }

  /** Resolving the priority keeps the best of the finished tries. */
  lemma BestAdd(row: seq<Record>, tries: set<nat>, t: nat, priority: int, result: nat, take: bool)
    requires t < |row| && (tries != {} ==> IsBest(row, tries, priority, result))
    requires take <==> tries == {} || priority <= row[t].priority
    ensures IsBest(row, tries + {t}, if take then row[t].priority else priority, if take then row[t].result else result)
  {
    if take {
      assert t in tries + {t} && row[t] == Record(row[t].result, row[t].priority);
    } else {
      var u :| u in tries && u < |row| && row[u] == Record(result, priority);
      assert u in tries + {t};
    }
  }

  lemma FinishAnswers(w: Work, st: State, i: nat)
    requires w.Valid() && Inv(w, st) && i < |st.slots| && st.slots[i].Busy?
    ensures Shape(w, Finish(w, st, i)) && Answers(w, Finish(w, st, i))
  {
    var s := st.slots[i];
    assert JobOk(w, st, s);
    var c, p := st.cmplt[s.cmplt], s.packet;
    assert OwnerOk(w, st, c);
    var take := c.count == w.tries || c.priority <= w.verdicts[p][s.trie].priority;
    BestAdd(w.verdicts[p], st.done[p], s.trie, c.priority, st.results[p], take);
  }

  lemma FinishCounts(w: Work, st: State, i: nat)
    requires w.Valid() && Inv(w, st) && i < |st.slots| && st.slots[i].Busy?
    ensures Shape(w, Finish(w, st, i)) && Counts(w, Finish(w, st, i))
    ensures st.started > 0
    ensures Finished(Finish(w, st, i).done, w.Packets()) == Finished(st.done, w.Packets()) + 1
  {
    var s := st.slots[i];
    assert JobOk(w, st, s);
    CountBusyUpdate(st.slots, i, Vacant, |st.slots|);
    CountBusyZero(st.slots, |st.slots|, i);
    FinishedUpdate(st.done, s.packet, s.trie, |st.done|);
  }

  lemma FinishKeeps(w: Work, st: State, i: nat)
    requires w.Valid() && Inv(w, st) && i < |st.slots| && st.slots[i].Busy?
    requires JobOk(w, st, st.slots[i])
    ensures Inv(w, Finish(w, st, i))
    ensures Finished(Finish(w, st, i).done, w.Packets()) == Finished(st.done, w.Packets()) + 1
  {
    var st' := Finish(w, st, i);
    FinishCoverage(w, st, i);
    FinishOwnership(w, st, i);
    FinishAnswers(w, st, i);
    FinishCounts(w, st, i);
    forall j | 0 <= j < |st'.slots| && st'.slots[j].Busy?
      ensures JobOk(w, st', st'.slots[j])
    {
      FinishJobs(w, st, i, j);
    }
  }

  /** At any time, traversals running plus traversals finished are those begun. */
  lemma Balance(w: Work, st: State)
    requires w.Valid() && Inv(w, st)
    ensures st.started + Finished(st.done, |st.done|) == st.packets * w.tries + st.trie
  {
    TimesIsProduct(st.packets, w.tries);
  }

  // ----- filling a slot

  lemma StartCoverage(w: Work, st: State, i: nat)
    requires w.Valid() && Inv(w, st) && i < |st.slots| && !st.slots[i].Busy? && st.packets < w.Packets()
    ensures Shape(w, Start(w, st, i)) && Coverage(w, Start(w, st, i))
  {
    var st' := Start(w, st, i);
    forall p: nat, t: nat | p < w.Packets() && t < w.tries && Begun(st', p, t) && t !in st'.done[p]
      ensures HasSlot(st', p, t)
    {
      if p == st.packets && t == st.trie {
        assert st'.slots[i] == Busy(p, t, 1, st'.last);
      } else {
        assert Begun(st, p, t) && HasSlot(st, p, t);
        var j :| 0 <= j < |st.slots| && st.slots[j].Busy? && st.slots[j].packet == p && st.slots[j].trie == t;
        assert st'.slots[j] == st.slots[j];
      }
    }
  }

  /** The completion for the traversal to start: a free one for a packet's first
      trie, the packet's own one after that. */
  lemma StartCompletion(w: Work, st: State, i: nat)
    requires w.Valid() && Inv(w, st) && i < |st.slots| && !st.slots[i].Busy? && st.packets < w.Packets()
    ensures Live(Start(w, st, i), Start(w, st, i).last, st.packets)
    ensures st.trie == 0 ==> Start(w, st, i).last < |st.cmplt| && st.cmplt[Start(w, st, i).last].count == 0
  {
    if st.trie == 0 {
      AllocNeverFails(w, st, i);
    }
  }

  lemma NothingDoneYet(w: Work, st: State, p: nat)
    requires w.Valid() && Inv(w, st) && p < w.Packets() && !Begun(st, p, 0)
    ensures st.done[p] == {}
  {
    if t: nat :| t in st.done[p] {
      assert false;
    }
  }

  lemma StartOwnership(w: Work, st: State, i: nat)
    requires w.Valid() && Inv(w, st) && i < |st.slots| && !st.slots[i].Busy? && st.packets < w.Packets()
    ensures Shape(w, Start(w, st, i)) && Ownership(w, Start(w, st, i))
  {
    var st' := Start(w, st, i);
    StartCompletion(w, st, i);
    if st.trie == 0 {
      NothingDoneYet(w, st, st.packets);
    }
    forall c | 0 <= c < |st'.cmplt| && st'.cmplt[c].count > 0
      ensures OwnerOk(w, st', st'.cmplt[c])
    {
      if c != st'.last || st.trie != 0 {
        assert OwnerOk(w, st, st.cmplt[c]);
      }
    }
  }

  lemma StartJobs(w: Work, st: State, i: nat, j: nat)
    requires w.Valid() && Inv(w, st) && i < |st.slots| && !st.slots[i].Busy? && st.packets < w.Packets()
    requires j < |st.slots| && Start(w, st, i).slots[j].Busy?
    ensures Shape(w, Start(w, st, i)) && JobOk(w, Start(w, st, i), Start(w, st, i).slots[j])
    ensures j != i ==> st.slots[j].packet != st.packets || st.slots[j].trie != st.trie
  {
    StartCompletion(w, st, i);
    if j != i {
      assert JobOk(w, st, st.slots[j]);
    } else {
      assert st.trie !in st.done[st.packets];
    }
  }

  lemma StartCounts(w: Work, st: State, i: nat)
    requires w.Valid() && Inv(w, st) && i < |st.slots| && !st.slots[i].Busy? && st.packets < w.Packets()
    requires forall j :: 0 <= j < |st.slots| ==> !st.slots[j].Idle?
    ensures Shape(w, Start(w, st, i)) && Counts(w, Start(w, st, i))
  {
    var st' := Start(w, st, i);
    CountBusyUpdate(st.slots, i, st'.slots[i], |st.slots|);
  }

  lemma StartExclusive(w: Work, st: State, i: nat)
    requires w.Valid() && Inv(w, st) && i < |st.slots| && !st.slots[i].Busy? && st.packets < w.Packets()
    ensures Exclusive(Start(w, st, i))
  {
    var st' := Start(w, st, i);
    forall j | 0 <= j < |st'.slots| && j != i && st'.slots[j].Busy?
      ensures st'.slots[j].packet != st.packets || st'.slots[j].trie != st.trie
    {
      StartJobs(w, st, i, j);
    }
  }

  lemma BeginKeeps(w: Work, st: State, i: nat)
    requires w.Valid() && Inv(w, st) && i < |st.slots| && !st.slots[i].Busy? && st.packets < w.Packets()
    ensures Inv(w, Start(w, st, i))
  {
    var st' := Start(w, st, i);
    StartCoverage(w, st, i);
    StartOwnership(w, st, i);
    StartCounts(w, st, i);
    StartExclusive(w, st, i);
    forall j | 0 <= j < |st'.slots| && st'.slots[j].Busy?
      ensures JobOk(w, st', st'.slots[j])
    {
      StartJobs(w, st, i, j);
    }
  }

  lemma StartKeeps(w: Work, st: State, i: nat)
    requires w.Valid() && Inv(w, st) && i < |st.slots| && !st.slots[i].Busy?
    ensures Inv(w, Start(w, st, i))
  {
    if st.packets < w.Packets() {
      BeginKeeps(w, st, i);
    } else {
      var st' := st.(slots := st.slots[i := Idle(0)]);
      assert Inv(w, st') by {
        SameJobsKeep(w, st, st.slots[i := Idle(0)]);
      }
      assert Start(w, st, i) == st';
    }
  }

  /** Same traversals in the same slots; positions may differ. */
  ghost predicate SameJobs(a: seq<Slot>, b: seq<Slot>) {
    && |a| == |b|
    && forall i :: 0 <= i < |a| ==>
         && (a[i].Busy? <==> b[i].Busy?)
         && (a[i].Busy? ==> a[i].packet == b[i].packet && a[i].trie == b[i].trie && a[i].cmplt == b[i].cmplt)
  }

  ghost predicate NoNewIdle(a: seq<Slot>, b: seq<Slot>) {
    |a| == |b| && forall i :: 0 <= i < |b| && b[i].Idle? ==> a[i].Idle?
  }

  lemma SameJobsKeep(w: Work, st: State, slots: seq<Slot>)
    requires w.Valid() && Inv(w, st) && SameJobs(st.slots, slots)
    requires st.packets == w.Packets() || NoNewIdle(st.slots, slots)
    ensures Inv(w, st.(slots := slots))
  {
    var st' := st.(slots := slots);
    SameJobsCover(w, st, slots);
    SameJobsCount(st.slots, slots, |slots|);
    forall j | 0 <= j < |slots| && slots[j].Busy?
      ensures JobOk(w, st', slots[j])
    {
      assert JobOk(w, st, st.slots[j]);
    }
    forall c | 0 <= c < |st.cmplt| && st.cmplt[c].count > 0
      ensures OwnerOk(w, st', st.cmplt[c])
    {
      assert OwnerOk(w, st, st.cmplt[c]);
    }
  }

  lemma {:induction false} SameJobsCount(a: seq<Slot>, b: seq<Slot>, k: nat)
    requires SameJobs(a, b) && k <= |a|
    ensures CountBusy(a, k) == CountBusy(b, k)
  {
    if k > 0 {
      SameJobsCount(a, b, k - 1);
    }
  }

  lemma SameJobsCover(w: Work, st: State, slots: seq<Slot>)
    requires w.Valid() && Inv(w, st) && SameJobs(st.slots, slots)
    ensures Shape(w, st.(slots := slots)) && Coverage(w, st.(slots := slots))
  {
    var st' := st.(slots := slots);
    forall p: nat, t: nat | p < w.Packets() && t < w.tries && Begun(st', p, t) && t !in st'.done[p]
      ensures HasSlot(st', p, t)
    {
      assert Begun(st, p, t) && HasSlot(st, p, t);
      var j :| 0 <= j < |st.slots| && st.slots[j].Busy? && st.slots[j].packet == p && st.slots[j].trie == t;
      assert slots[j].packet == p && slots[j].trie == t;
    }
  }

  // ----- reading input

  function MoveOn(slots: seq<Slot>, i: nat): seq<Slot>
    requires i < |slots| && !slots[i].Vacant?
  {
    slots[i := slots[i].(pos := slots[i].pos + 1)]
  }

  lemma OneMoved(slots: seq<Slot>, i: nat)
    requires i < |slots| && !slots[i].Vacant?
    ensures SameJobs(slots, MoveOn(slots, i)) && NoNewIdle(slots, MoveOn(slots, i))
  {
  }

  lemma AdvanceKeeps(w: Work, st: State, i: nat)
    requires w.Valid() && Inv(w, st) && i < |st.slots|
    ensures Inv(w, Advance(st, i))
  {
    if !st.slots[i].Vacant? {
      OneMoved(st.slots, i);
      var st' := st.(slots := MoveOn(st.slots, i));
      assert Inv(w, st') by {
        SameJobsKeep(w, st, MoveOn(st.slots, i));
      }
      assert Advance(st, i) == st';
    }
  }

  // ----- a match: finish and refill

  ghost function Refill(w: Work, st: State, i: nat): State
    requires w.Valid() && Shape(w, st) && i < |st.slots| && st.slots[i].Busy? && JobOk(w, st, st.slots[i])
  {
    Start(w, Finish(w, st, i), i)
  }

  lemma RefillKeeps(w: Work, st: State, i: nat)
    requires w.Valid() && Inv(w, st) && i < |st.slots| && st.slots[i].Busy?
    ensures JobOk(w, st, st.slots[i]) && st.started > 0
    ensures Inv(w, Refill(w, st, i))
    ensures !Refill(w, st, i).slots[i].Vacant?
    ensures Refill(w, st, i).slots == st.slots[i := Refill(w, st, i).slots[i]]
    ensures |Refill(w, st, i).done| == |st.done|
    ensures Finished(Refill(w, st, i).done, |st.done|) == Finished(st.done, |st.done|) + 1
  {
    assert JobOk(w, st, st.slots[i]);
    FinishKeeps(w, st, i);
    FinishCounts(w, st, i);
    StartKeeps(w, Finish(w, st, i), i);
  }

  // ----- beginning and end

  ghost function Init(w: Work, slots: nat, cmplt: seq<Completion>, results: seq<nat>): State
    requires |results| == w.Packets()
  {
    State(0, 0, 0, 0, cmplt, seq(slots, _ => Vacant), results,
          seq(w.Packets(), _ => {}), seq(w.Packets(), _ => 0))
  }

  lemma InitHolds(w: Work, slots: nat, cmplt: seq<Completion>, results: seq<nat>)
    requires w.Valid() && |results| == w.Packets() && |cmplt| == slots
    requires forall c :: 0 <= c < slots ==> cmplt[c].count == 0
    ensures Inv(w, Init(w, slots, cmplt, results))
  {
    var st := Init(w, slots, cmplt, results);
    NoneBusy(st.slots, slots);
    NoneFinished(st.done, |st.done|);
  }

  lemma {:induction false} NoneBusy(slots: seq<Slot>, k: nat)
    requires k <= |slots| && forall i :: 0 <= i < |slots| ==> !slots[i].Busy?
    ensures CountBusy(slots, k) == 0
  {
    if k > 0 {
      NoneBusy(slots, k - 1);
    }
  }

  lemma {:induction false} NoneFinished(done: seq<set<nat>>, k: nat)
    requires k <= |done| && forall p :: 0 <= p < |done| ==> done[p] == {}
    ensures Finished(done, k) == 0
  {
    if k > 0 {
      NoneFinished(done, k - 1);
    }
  }

  lemma {:induction false} TimesMonotone(a: nat, b: nat, tries: nat)
    requires a <= b
    ensures Times(a, tries) <= Times(b, tries)
  {
    if a < b {
      TimesMonotone(a, b - 1, tries);
    }
  }

  /** No more traversals finish than there are. */
  lemma FinishedBound(w: Work, st: State)
    requires w.Valid() && Inv(w, st)
    ensures Finished(st.done, |st.done|) <= Times(w.Packets(), w.tries)
  {
    TimesMonotone(if st.packets < w.Packets() then st.packets + 1 else st.packets, w.Packets(), w.tries);
  }

  /** When no slot is busy or vacant, every trie of every packet is finished and
      each packet's result comes from a trie of highest priority. */
  lemma AllAnswered(w: Work, st: State)
    requires w.Valid() && Inv(w, st) && |st.slots| > 0 && st.started == 0
    requires forall i :: 0 <= i < |st.slots| ==> !st.slots[i].Vacant?
    ensures st.packets == w.Packets() && Finished(st.done, |st.done|) == Times(w.Packets(), w.tries)
    ensures forall p :: 0 <= p < w.Packets() ==>
      st.done[p] == Below(w.tries) && IsBest(w.verdicts[p], Below(w.tries), st.best[p], st.results[p])
  {
    forall i | 0 <= i < |st.slots|
      ensures st.slots[i].Idle?
    {
      if st.slots[i].Busy? {
        CountBusyZero(st.slots, |st.slots|, i);
      }
    }
    assert st.slots[0].Idle?;
    forall p | 0 <= p < w.Packets()
      ensures st.done[p] == Below(w.tries)
    {
      forall t: nat | t < w.tries
        ensures t in st.done[p]
      {
        assert Begun(st, p, t);
        assert !HasSlot(st, p, t);
      }
    }
    assert 0 in Below(w.tries);
  }

  /** Trie `t` has the highest priority in the row. */
  ghost predicate IsTop(row: seq<Record>, t: nat) {
    t < |row| && forall u :: 0 <= u < |row| ==> row[u].priority <= row[t].priority
  }

  /** The result is that of a trie of the highest priority. */
  ghost predicate TopResult(row: seq<Record>, result: nat) {
    exists t: nat :: IsTop(row, t) && row[t].result == result
  }

  ghost predicate AllTop(w: Work, results: seq<nat>) {
    |results| == w.Packets() && forall p :: 0 <= p < w.Packets() ==> TopResult(w.verdicts[p], results[p])
  }

  lemma BestIsTop(row: seq<Record>, priority: int, result: nat)
    requires IsBest(row, Below(|row|), priority, result)
    ensures TopResult(row, result)
  {
    var t :| t in Below(|row|) && t < |row| && row[t] == Record(result, priority);
    assert IsTop(row, t);
  }

  lemma AllTopAtEnd(w: Work, st: State)
    requires w.Valid() && Inv(w, st) && |st.slots| > 0 && st.started == 0
    requires forall i :: 0 <= i < |st.slots| ==> !st.slots[i].Vacant?
    ensures Finished(st.done, |st.done|) == Times(w.Packets(), w.tries) && AllTop(w, st.results)
  {
    AllAnswered(w, st);
    forall p | 0 <= p < w.Packets()
      ensures TopResult(w.verdicts[p], st.results[p])
    {
      BestIsTop(w.verdicts[p], st.best[p], st.results[p]);
    }
  }

  // ----- all runs

  /** A move of the search: finish, fill or read, in any slot. */
  datatype Move = Complete(slot: nat) | Fill(slot: nat) | Read(slot: nat)

  ghost predicate Enabled(w: Work, st: State, m: Move) {
    && w.Valid() && Shape(w, st) && m.slot < |st.slots|
    && (m.Complete? ==> st.slots[m.slot].Busy? && JobOk(w, st, st.slots[m.slot]))
    && (m.Fill? ==> !st.slots[m.slot].Busy?)
  }

  ghost function Apply(w: Work, st: State, m: Move): State
    requires Enabled(w, st, m)
  {
    match m
    case Complete(i) => Finish(w, st, i)
    case Fill(i) => Start(w, st, i)
    case Read(i) => Advance(st, i)
  }

  /** The moves, made one after another, lead from `st` to `end`. */
  ghost predicate Runs(w: Work, st: State, moves: seq<Move>, end: State)
    decreases |moves|
  {
    if moves == [] then st == end
    else Enabled(w, st, moves[0]) && Runs(w, Apply(w, st, moves[0]), moves[1..], end)
  }

  lemma MoveKeepsInv(w: Work, st: State, m: Move)
    requires w.Valid() && Inv(w, st) && Enabled(w, st, m)
    ensures Inv(w, Apply(w, st, m))
  {
    match m
    case Complete(i) => FinishKeeps(w, st, i);
    case Fill(i) => StartKeeps(w, st, i);
    case Read(i) => AdvanceKeeps(w, st, i);
  }

  /** Whatever the interleaving, the invariant holds all along. */
  lemma {:induction false} AllRunsKeepInv(w: Work, st: State, moves: seq<Move>, end: State)
    requires w.Valid() && Inv(w, st) && Runs(w, st, moves, end)
    ensures Inv(w, end)
    decreases |moves|
  {
    if moves != [] {
      MoveKeepsInv(w, st, moves[0]);
      AllRunsKeepInv(w, Apply(w, st, moves[0]), moves[1..], end);
    }
  }

  /** So any run from the start that ends with no slot busy or vacant has
      answered every packet with a top result. */
  lemma AllRunsAnswer(w: Work, cmplt: seq<Completion>, results: seq<nat>, moves: seq<Move>, end: State)
    requires w.Valid() && |results| == w.Packets() && |cmplt| > 0
    requires forall c :: 0 <= c < |cmplt| ==> cmplt[c].count == 0
    requires Runs(w, Init(w, |cmplt|, cmplt, results), moves, end)
    requires |end.slots| > 0 && forall i :: 0 <= i < |end.slots| ==> end.slots[i].Idle?
    ensures AllTop(w, end.results) && Finished(end.done, |end.done|) == Times(w.Packets(), w.tries)
  {
    InitHolds(w, |cmplt|, cmplt, results);
    AllRunsKeepInv(w, Init(w, |cmplt|, cmplt, results), moves, end);
    NoneBusy(end.slots, |end.slots|);
    AllTopAtEnd(w, end);
  }
}
