/** The interleaved search as a state machine: slots run traversals, completion
    records collect the answers of a packet's tries and are recycled. */
module AclSearch {
  import opened AclTrie

  /** What there is to find out: the record each trie selects for each packet. */
  datatype Work = Work(tries: nat, verdicts: seq<seq<Record>>) {
    ghost predicate Valid() {
      tries > 0 && forall p :: 0 <= p < |verdicts| ==> |verdicts[p]| == tries
    }

    function Packets(): nat { |verdicts| }
  }

  /** A slot waiting to be filled, parked on the idle node after reading `pos` entries of
      the idle array, or running trie `trie` of packet `packet` after reading `pos` data offsets. */
  datatype Slot = Vacant | Idle(pos: nat) | Busy(packet: nat, trie: nat, pos: nat, cmplt: nat)

  /** Running answer for one packet; free when `count` is 0. */
  datatype Completion = Completion(packet: nat, priority: int, count: nat)

  /** `packets` and `trie` point at the next traversal to start.  `done` (finished
      tries per packet) and `best` (best priority so far) are bookkeeping for
      the proofs. */
  datatype State = State(
    packets: nat, trie: nat, started: nat, last: nat,
    cmplt: seq<Completion>, slots: seq<Slot>, results: seq<nat>,
    done: seq<set<nat>>, best: seq<int>)

  // ----- counting

  function CountBusy(slots: seq<Slot>, k: nat): nat
    requires k <= |slots|
  {
    if k == 0 then 0 else CountBusy(slots, k - 1) + (if slots[k - 1].Busy? then 1 else 0)
  }

  lemma {:induction false} CountBusyUpdate(slots: seq<Slot>, i: nat, s: Slot, k: nat)
    requires i < |slots| && k <= |slots|
    ensures CountBusy(slots[i := s], k) == CountBusy(slots, k) +
            (if i < k then (if s.Busy? then 1 else 0) - (if slots[i].Busy? then 1 else 0) else 0)
  {
    if k > 0 {
      CountBusyUpdate(slots, i, s, k - 1);
    }
  }

  lemma {:induction false} CountBusyZero(slots: seq<Slot>, k: nat, i: nat)
    requires i < k <= |slots| && slots[i].Busy?
    ensures CountBusy(slots, k) > 0
  {
    if i < k - 1 {
      CountBusyZero(slots, k - 1, i);
    }
  }

  /** Traversals finished so far. */
  function Finished(done: seq<set<nat>>, k: nat): nat
    requires k <= |done|
  {
    if k == 0 then 0 else Finished(done, k - 1) + |done[k - 1]|
  }

  lemma {:induction false} FinishedUpdate(done: seq<set<nat>>, p: nat, t: nat, k: nat)
    requires p < |done| && k <= |done| && t !in done[p]
    ensures Finished(done[p := done[p] + {t}], k) == Finished(done, k) + (if p < k then 1 else 0)
  {
    if k > 0 {
      FinishedUpdate(done, p, t, k - 1);
    }
  }

  function Below(n: nat): (s: set<nat>)
    ensures |s| == n && forall t: nat :: t in s <==> t < n
  {
    if n == 0 then {} else Below(n - 1) + {n - 1}
  }

  lemma SubsetSize(s: set<nat>, n: nat)
    requires forall t :: t in s ==> t < n
    ensures |s| <= n && (|s| == n ==> s == Below(n))
  {
    assert s <= Below(n);
    assert |Below(n) - s| == n - |s|;
  }

  lemma ProperSubsetSize(s: set<nat>, n: nat, t: nat)
    requires t < n && t !in s && forall t :: t in s ==> t < n
    ensures |s| < n
  {
    SubsetSize(s, n);
  }

  /** packets * tries, as repeated addition. */
  function Times(packets: nat, tries: nat): nat {
    if packets == 0 then 0 else Times(packets - 1, tries) + tries
  }

  lemma {:induction false} TimesIsProduct(packets: nat, tries: nat)
    ensures Times(packets, tries) == packets * tries
  {
    if packets > 0 {
      TimesIsProduct(packets - 1, tries);
      assert (packets - 1) * tries + tries == packets * tries;
    }
  }

  // ----- the invariant

  ghost predicate Begun(st: State, p: nat, t: nat) {
    p < st.packets || (p == st.packets && t < st.trie)
  }

  ghost predicate Shape(w: Work, st: State) {
    && st.packets <= w.Packets() && st.trie < w.tries && (st.packets == w.Packets() ==> st.trie == 0)
    && |st.results| == |st.done| == |st.best| == w.Packets()
    && |st.slots| == |st.cmplt|
  }

  ghost predicate Live(st: State, c: nat, p: nat) {
    c < |st.cmplt| && st.cmplt[c].count > 0 && st.cmplt[c].packet == p
  }

  /** Each busy slot runs a begun, unfinished traversal whose completion is live. */
  ghost predicate Jobs(w: Work, st: State)
    requires Shape(w, st)
  {
    forall i :: 0 <= i < |st.slots| && st.slots[i].Busy? ==> JobOk(w, st, st.slots[i])
  }

  ghost predicate JobOk(w: Work, st: State, s: Slot)
    requires Shape(w, st) && s.Busy?
  {
    && s.packet < w.Packets() && s.trie < w.tries
    && Begun(st, s.packet, s.trie)
    && s.trie !in st.done[s.packet]
    && Live(st, s.cmplt, s.packet)
  }

  /** No two slots run the same traversal. */
  ghost predicate Exclusive(st: State) {
    forall i, j :: 0 <= i < j < |st.slots| && st.slots[i].Busy? && st.slots[j].Busy? ==>
      st.slots[i].packet != st.slots[j].packet || st.slots[i].trie != st.slots[j].trie
  }

  ghost predicate HasSlot(st: State, p: nat, t: nat) {
    exists i :: 0 <= i < |st.slots| && st.slots[i].Busy? && st.slots[i].packet == p && st.slots[i].trie == t
  }

  /** Begun traversals are finished or own a slot; only begun ones are finished. */
  ghost predicate Coverage(w: Work, st: State)
    requires Shape(w, st)
  {
    && (forall p: nat, t: nat :: p < w.Packets() && t < w.tries && Begun(st, p, t) && t !in st.done[p] ==>
          HasSlot(st, p, t))
    && (forall p: nat, t: nat :: p < w.Packets() && t in st.done[p] ==> t < w.tries && Begun(st, p, t))
  }

  /** A live completion belongs to one packet and counts its unfinished tries. */
  ghost predicate Ownership(w: Work, st: State)
    requires Shape(w, st)
  {
    && (forall c :: 0 <= c < |st.cmplt| && st.cmplt[c].count > 0 ==> OwnerOk(w, st, st.cmplt[c]))
    && (forall c, c' :: 0 <= c < c' < |st.cmplt| && st.cmplt[c].count > 0 && st.cmplt[c'].count > 0 ==>
          st.cmplt[c].packet != st.cmplt[c'].packet)
    && (st.trie > 0 ==> Live(st, st.last, st.packets))
  }

  ghost predicate OwnerOk(w: Work, st: State, c: Completion)
    requires Shape(w, st)
  {
    && c.packet < w.Packets() && Begun(st, c.packet, 0)
    && c.count == w.tries - |st.done[c.packet]|
    && (st.done[c.packet] != {} ==> c.priority == st.best[c.packet])
  }

  /** `priority` is the highest among the tries in `tries` and `result` is the
      result of one that attains it. */
  ghost predicate IsBest(row: seq<Record>, tries: set<nat>, priority: int, result: nat) {
    && (forall t :: t in tries ==> t < |row| && row[t].priority <= priority)
    && exists t :: t in tries && t < |row| && row[t] == Record(result, priority)
  }

  ghost predicate Answers(w: Work, st: State)
    requires Shape(w, st)
  {
    forall p :: 0 <= p < w.Packets() && st.done[p] != {} ==>
      IsBest(w.verdicts[p], st.done[p], st.best[p], st.results[p])
  }

  /** A slot is parked only when nothing is left to start; `started` counts the
      busy slots; started and finished traversals add up. */
  ghost predicate Counts(w: Work, st: State)
    requires Shape(w, st)
  {
    && (forall i :: 0 <= i < |st.slots| && st.slots[i].Idle? ==> st.packets == w.Packets())
    && st.started == CountBusy(st.slots, |st.slots|)
    && st.started + Finished(st.done, |st.done|) == Times(st.packets, w.tries) + st.trie
  }

  ghost predicate Inv(w: Work, st: State)
    requires w.Valid()
  {
    && Shape(w, st)
    && Jobs(w, st)
    && Exclusive(st)
    && Coverage(w, st)
    && Ownership(w, st)
    && Answers(w, st)
    && Counts(w, st)
  }

  // ----- steps

  /** A match in slot `i`: resolve the priority, count the trie as finished. */
  ghost function Finish(w: Work, st: State, i: nat): State
    requires w.Valid() && Shape(w, st) && i < |st.slots| && st.slots[i].Busy? && JobOk(w, st, st.slots[i])
  {
    var s := st.slots[i];
    var c := st.cmplt[s.cmplt];
    var v := w.verdicts[s.packet][s.trie];
    var take := c.count == w.tries || c.priority <= v.priority;
    var priority := if take then v.priority else c.priority;
    st.(started := if st.started > 0 then st.started - 1 else 0,
        slots := st.slots[i := Vacant],
        cmplt := st.cmplt[s.cmplt := Completion(c.packet, priority, c.count - 1)],
        results := if take then st.results[s.packet := v.result] else st.results,
        done := st.done[s.packet := st.done[s.packet] + {s.trie}],
        best := st.best[s.packet := priority])
  }

  /** First free completion at or after `k`; the length if there is none. */
  function FirstFree(cmplt: seq<Completion>, k: nat): (c: nat)
    requires k <= |cmplt|
    ensures k <= c <= |cmplt|
    ensures forall j :: k <= j < c ==> cmplt[j].count > 0
    ensures c < |cmplt| ==> cmplt[c].count == 0
    decreases |cmplt| - k
  {
    if k == |cmplt| || cmplt[k].count == 0 then k else FirstFree(cmplt, k + 1)
  }

  /** Fill slot `i` with the next traversal, or park it. */
  ghost function Start(w: Work, st: State, i: nat): State
    requires w.Valid() && Shape(w, st) && i < |st.slots|
  {
    if st.packets == w.Packets() then st.(slots := st.slots[i := Idle(0)])
    else
      var c := if st.trie == 0 then FirstFree(st.cmplt, 0) else st.last;
      var wrap := st.trie + 1 == w.tries;
      st.(packets := if wrap then st.packets + 1 else st.packets,
          trie := if wrap then 0 else st.trie + 1,
          started := st.started + 1,
          last := c,
          cmplt := if st.trie == 0 && c < |st.cmplt|
                   then st.cmplt[c := Completion(st.packets, st.cmplt[c].priority, w.tries)] else st.cmplt,
          slots := st.slots[i := Busy(st.packets, st.trie, 1, c)])
  }

  /** One block of input for slot `i`, or one of zeros from the idle array. */
  ghost function Advance(st: State, i: nat): State
    requires i < |st.slots|
  {
    var s := st.slots[i];
    if s.Vacant? then st else st.(slots := st.slots[i := s.(pos := s.pos + 1)])
  }

  // ----- a completion is always free when one is needed

  lemma {:induction false} ImageSize(f: seq<nat>, k: nat) returns (image: set<nat>)
    requires k <= |f| && forall a, b :: 0 <= a < b < |f| ==> f[a] != f[b]
    ensures |image| == k && forall v :: v in image <==> exists a :: 0 <= a < k && f[a] == v
  {
    if k == 0 {
      image := {};
    } else {
      var rest := ImageSize(f, k - 1);
      assert f[k - 1] !in rest;
      image := rest + {f[k - 1]};
    }
  }

  /** Distinct values below n that all avoid one of them are fewer than n. */
  lemma Pigeonhole(f: seq<nat>, n: nat, hole: nat)
    requires hole < n && forall a, b :: 0 <= a < b < |f| ==> f[a] != f[b]
    requires forall a :: 0 <= a < |f| ==> f[a] < n && f[a] != hole
    ensures |f| < n
  {
    var image := ImageSize(f, |f|);
    ProperSubsetSize(image, n, hole);
  }

  /** The slot that runs some unfinished trie of the completion's packet. */
  lemma SlotOfCompletion(w: Work, st: State, c: nat) returns (i: nat)
    requires w.Valid() && Inv(w, st) && st.trie == 0
    requires c < |st.cmplt| && st.cmplt[c].count > 0
    ensures i < |st.slots| && st.slots[i].Busy? && st.slots[i].packet == st.cmplt[c].packet
  {
    var p := st.cmplt[c].packet;
    assert OwnerOk(w, st, st.cmplt[c]);
    var done := st.done[p];
    var missing := Below(w.tries) - done;
    assert missing != {} by {
      assert |missing| >= |Below(w.tries)| - |done|;
    }
    var t :| t in missing;
    assert HasSlot(st, p, t);
    i :| 0 <= i < |st.slots| && st.slots[i].Busy? && st.slots[i].packet == p && st.slots[i].trie == t;
  }

  lemma {:induction false} SlotsOfCompletions(w: Work, st: State, k: nat) returns (f: seq<nat>)
    requires w.Valid() && Inv(w, st) && st.trie == 0
    requires k <= |st.cmplt| && forall c :: 0 <= c < k ==> st.cmplt[c].count > 0
    ensures |f| == k
    ensures forall c :: 0 <= c < k ==>
      f[c] < |st.slots| && st.slots[f[c]].Busy? && st.slots[f[c]].packet == st.cmplt[c].packet
  {
    if k == 0 {
      f := [];
    } else {
      var rest := SlotsOfCompletions(w, st, k - 1);
      var i := SlotOfCompletion(w, st, k - 1);
      f := rest + [i];
    }
  }

  /** The "should never get here" of alloc_completion: when a new packet is begun
      in a slot that is not busy, some completion is free. */
  lemma AllocNeverFails(w: Work, st: State, i: nat)
    requires w.Valid() && Inv(w, st) && st.trie == 0
    requires i < |st.slots| && !st.slots[i].Busy?
    ensures FirstFree(st.cmplt, 0) < |st.cmplt|
  {
    if FirstFree(st.cmplt, 0) == |st.cmplt| {
      var f := SlotsOfCompletions(w, st, |st.cmplt|);
      assert forall a, b :: 0 <= a < b < |f| ==> f[a] != f[b];
      Pigeonhole(f, |st.slots|, i);
    }
  }
}
