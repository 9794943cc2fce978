/** The worker thread's timers: what a timer check does, and what every run of checks keeps. */
module ThreadTimer {
  import opened Basics

  const MAX_PIPELINES: nat := 64

  /** A pipeline enabled on the thread. */
  datatype Slot = Slot(id: nat, period: nat, deadline: nat)

  datatype Msg = Enable(id: nat, period: nat, custom: bool) | Disable(id: nat) | ReadHeadroom

  datatype Thread = Thread(regular: seq<Slot>, custom: seq<Slot>, deadline: nat, reqDeadline: nat, period: nat,
      inbox: seq<Msg>)

  // ----- one check

  predicate Due(s: Slot, time: nat) { s.deadline <= time }

  function Fire(s: Slot, time: nat): Slot { if Due(s, time) then s.(deadline := time + s.period) else s }

  function FireAll(ss: seq<Slot>, time: nat): (r: seq<Slot>)
    ensures |r| == |ss| && forall i :: 0 <= i < |ss| ==> r[i] == Fire(ss[i], time)
  {
    seq(|ss|, i requires 0 <= i < |ss| => Fire(ss[i], time))
  }

  /** The earliest deadline, or `none` if that is earlier. */
  function Earliest(ss: seq<Slot>, none: nat): (d: nat)
    ensures d <= none && forall i :: 0 <= i < |ss| ==> d <= ss[i].deadline
  {
    if ss == [] then none else Min(ss[|ss| - 1].deadline, Earliest(ss[..|ss| - 1], none))
  }

  /** The first slot with this id removed, if there is one. */
  function Remove(ss: seq<Slot>, id: nat): (r: Option<seq<Slot>>)
    ensures r.None? <==> forall i :: 0 <= i < |ss| ==> ss[i].id != id
    ensures r.Some? ==> |r.value| == |ss| - 1 && forall i :: 0 <= i < |r.value| ==> r.value[i] in ss
  {
    if ss == [] then None
    else if ss[0].id == id then Some(ss[1..])
    else match Remove(ss[1..], id) case None => None case Some(r) => Some([ss[0]] + r)
  }

  /** A message's effect on the slots, and its status. */
  function Handle(t: Thread, m: Msg): (Thread, int) {
    match m
    case Enable(id, period, custom) =>
      if custom then
        if |t.custom| >= MAX_PIPELINES then (t, -1) else (t.(custom := t.custom + [Slot(id, period, 0)]), 0)
      else
        if |t.regular| >= MAX_PIPELINES then (t, -1) else (t.(regular := t.regular + [Slot(id, period, 0)]), 0)
    case Disable(id) =>
      (match Remove(t.regular, id)
       case Some(r) => (t.(regular := r), 0)
       case None =>
         match Remove(t.custom, id)
         case Some(r) => (t.(custom := r), 0)
         case None => (t, -1))
    case ReadHeadroom => (t, 0)
  }

  function Receive(t: Thread): Thread {
    if t.inbox == [] then t else Handle(t.(inbox := t.inbox[1..]), t.inbox[0]).0
  }

  const NEVER: nat := 0xffff_ffff_ffff_ffff

  function Fired(t: Thread, time: nat): Thread {
    t.(regular := FireAll(t.regular, time), custom := FireAll(t.custom, time))
  }

  /** What one pass over the timers does at `time`. */
  function Pass(t: Thread, time: nat): Thread {
    var f := Fired(t, time);
    var next := Earliest(f.custom, Earliest(f.regular, NEVER));
    if t.reqDeadline <= time then
      var d := time + t.period;
      Receive(f).(reqDeadline := d, deadline := Min(d, next))
    else f.(deadline := Min(t.reqDeadline, next))
  }

  function Check(t: Thread, time: nat): Thread { if time < t.deadline then t else Pass(t, time) }

  // ----- the invariant

  /** A slot is new, or not due before the thread's own deadline. */
  predicate Waits(s: Slot, deadline: nat) { s.deadline == 0 || deadline <= s.deadline }

  predicate AllWait(ss: seq<Slot>, deadline: nat) { forall i :: 0 <= i < |ss| ==> Waits(ss[i], deadline) }

  ghost predicate Inv(t: Thread) {
    && |t.regular| <= MAX_PIPELINES && |t.custom| <= MAX_PIPELINES
    && AllWait(t.regular, t.deadline) && AllWait(t.custom, t.deadline)
    && t.deadline <= t.reqDeadline
  }

  lemma ReceiveKeeps(t: Thread, deadline: nat)
    requires |t.regular| <= MAX_PIPELINES && |t.custom| <= MAX_PIPELINES
    requires AllWait(t.regular, deadline) && AllWait(t.custom, deadline)
    ensures var r := Receive(t);
      && |r.regular| <= MAX_PIPELINES && |r.custom| <= MAX_PIPELINES
      && AllWait(r.regular, deadline) && AllWait(r.custom, deadline)
  {
  }

  lemma PassKeeps(t: Thread, time: nat)
    requires Inv(t)
    ensures Inv(Pass(t, time))
  {
    var f := Fired(t, time);
    var next := Earliest(f.custom, Earliest(f.regular, NEVER));
    ReceiveKeeps(f, Min(time + t.period, next));
  }

  /** Every check keeps the invariant, at any time and with any messages waiting. */
  lemma CheckKeeps(t: Thread, time: nat)
    requires Inv(t)
    ensures Inv(Check(t, time))
  {
    if time >= t.deadline {
      PassKeeps(t, time);
    }
  }

  /** A skipped check passes over no timer but a new one's. */
  lemma SkipIsSafe(t: Thread, time: nat, s: Slot)
    requires Inv(t) && (s in t.regular || s in t.custom) && time < t.deadline
    ensures Due(s, time) ==> s.deadline == 0
  {
  }

  /** A timer that is due and not new is fired by the very next check, regular or custom. */
  lemma DueFires(t: Thread, time: nat, s: Slot)
    requires Inv(t) && (s in t.regular || s in t.custom) && Due(s, time) && s.deadline != 0
    ensures time >= t.deadline && Check(t, time) == Pass(t, time)
    ensures forall i :: 0 <= i < |t.regular| && t.regular[i] == s ==>
      Fired(t, time).regular[i] == s.(deadline := time + s.period)
    ensures forall i :: 0 <= i < |t.custom| && t.custom[i] == s ==>
      Fired(t, time).custom[i] == s.(deadline := time + s.period)
  {
    assert Waits(s, t.deadline);
  }

  lemma {:induction false} EarliestIsOne(ss: seq<Slot>, none: nat)
    ensures Earliest(ss, none) == none || exists i :: 0 <= i < |ss| && ss[i].deadline == Earliest(ss, none)
    decreases |ss|
  {
    if ss != [] {
      var n := |ss| - 1;
      EarliestIsOne(ss[..n], none);
      if Earliest(ss[..n], none) != none {
        var i :| 0 <= i < n && ss[..n][i].deadline == Earliest(ss[..n], none);
        assert ss[i].deadline == Earliest(ss[..n], none);
      }
    }
  }

  /** After a pass no check is made early for nothing: the thread's deadline is the next message's or that of a
      slot just seen. */
  lemma DeadlineIsSomeones(t: Thread, time: nat)
    ensures var p, f := Pass(t, time), Fired(t, time);
      || p.deadline == p.reqDeadline || p.deadline == NEVER
      || (exists i :: 0 <= i < |f.regular| && f.regular[i].deadline == p.deadline)
      || (exists i :: 0 <= i < |f.custom| && f.custom[i].deadline == p.deadline)
  {
    var f := Fired(t, time);
    EarliestIsOne(f.regular, NEVER);
    EarliestIsOne(f.custom, Earliest(f.regular, NEVER));
  }

  // ----- what a check does

  /** The slots of `was` with every timer that is due set again. */
  ghost predicate AllFired(now: seq<Slot>, was: seq<Slot>, time: nat) {
    |now| == |was| && forall i :: 0 <= i < |was| ==>
      var s := was[i];
      now[i] == Slot(s.id, s.period, if s.deadline <= time then time + s.period else s.deadline)
  }

  /** No later than any slot's deadline. */
  ghost predicate NotAfter(deadline: nat, ss: seq<Slot>) { forall i :: 0 <= i < |ss| ==> deadline <= ss[i].deadline }

  /** The thread passes over its timers and takes this message. */
  ghost predicate Takes(t: Thread, time: nat, m: Msg) {
    t.deadline <= time && t.reqDeadline <= time && t.inbox != [] && t.inbox[0] == m
  }

  /** Before the thread's deadline a check does nothing; from then on it sets every due timer again, takes a message
      if the message deadline has come, and sets the two deadlines. */
  lemma CheckEffect(t: Thread, time: nat)
    ensures time < t.deadline ==> Check(t, time) == t
    ensures time >= t.deadline ==>
      var r := Check(t, time);
      && r.period == t.period
      && r.reqDeadline == (if t.reqDeadline <= time then time + t.period else t.reqDeadline)
      && r.inbox == (if t.reqDeadline <= time && t.inbox != [] then t.inbox[1..] else t.inbox)
      && r.deadline <= r.reqDeadline
      && (t.reqDeadline > time || t.inbox == [] ==>
           && AllFired(r.regular, t.regular, time) && AllFired(r.custom, t.custom, time)
           && NotAfter(r.deadline, r.regular) && NotAfter(r.deadline, r.custom))
  {
  }

  /** Taking an enable message: with room, the named array has one slot more, with that id, that period and deadline
      0; without, nothing but the timers changes. */
  lemma EnableEffect(t: Thread, time: nat, id: nat, period: nat, custom: bool)
    requires Takes(t, time, Enable(id, period, custom))
    ensures var r := Check(t, time);
      var was, now := if custom then t.custom else t.regular, if custom then r.custom else r.regular;
      && AllFired(if custom then r.regular else r.custom, if custom then t.regular else t.custom, time)
      && (|was| < 64 ==>
           |now| == |was| + 1 && AllFired(now[..|was|], was, time) && now[|was|] == Slot(id, period, 0))
      && (|was| >= 64 ==> AllFired(now, was, time))
  {
  }

  /** Taking a disable message: the first slot with that id goes, from the regular ones before the custom ones, and
      the others move up. */
  lemma DisableEffect(t: Thread, time: nat, id: nat)
    requires Takes(t, time, Disable(id))
    ensures var r := Check(t, time);
      && (forall i :: FirstWith(t.regular, id, i) ==>
           AllFired(r.regular, t.regular[..i] + t.regular[i + 1..], time) && AllFired(r.custom, t.custom, time))
      && (Lacks(t.regular, id) ==> AllFired(r.regular, t.regular, time))
      && (Lacks(t.regular, id) ==> forall i :: FirstWith(t.custom, id, i) ==>
           AllFired(r.custom, t.custom[..i] + t.custom[i + 1..], time))
      && (Lacks(t.regular, id) && Lacks(t.custom, id) ==> AllFired(r.custom, t.custom, time))
  {
    forall i | FirstWith(t.regular, id, i) ensures RemovedFired(t.regular, time, id, i) {
      RemoveFired(t.regular, time, id, i);
    }
    forall i | FirstWith(t.custom, id, i) ensures RemovedFired(t.custom, time, id, i) {
      RemoveFired(t.custom, time, id, i);
    }
  }

  ghost predicate RemovedFired(ss: seq<Slot>, time: nat, id: nat, i: int)
    requires 0 <= i < |ss|
  {
    var r := Remove(FireAll(ss, time), id);
    r.Some? && AllFired(r.value, ss[..i] + ss[i + 1..], time)
  }

  lemma RemoveFired(ss: seq<Slot>, time: nat, id: nat, i: int)
    requires FirstWith(ss, id, i)
    ensures RemovedFired(ss, time, id, i)
  {
    var f := FireAll(ss, time);
    forall k | 0 <= k < i ensures f[k].id != id {
      assert ss[..i][k].id != id;
    }
    RemoveAt(f, i, id);
  }

  ghost predicate FirstWith(ss: seq<Slot>, id: nat, i: int) {
    0 <= i < |ss| && ss[i].id == id && Lacks(ss[..i], id)
  }

  ghost predicate Lacks(ss: seq<Slot>, id: nat) { forall i :: 0 <= i < |ss| ==> ss[i].id != id }

  /** The status sent back: -1 exactly for a full array or an unknown pipeline. */
  lemma StatusEffect(t: Thread, m: Msg)
    ensures Handle(t, m).1 ==
      if (m.Enable? && |if m.custom then t.custom else t.regular| >= 64)
        || (m.Disable? && Lacks(t.regular, m.id) && Lacks(t.custom, m.id)) then -1 else 0
  {
  }

  lemma {:induction false} RemoveAt(ss: seq<Slot>, i: nat, id: nat)
    requires i < |ss| && ss[i].id == id && forall k :: 0 <= k < i ==> ss[k].id != id
    ensures Remove(ss, id) == Some(ss[..i] + ss[i + 1..])
    decreases |ss|
  {
    if i == 0 {
      assert ss[..0] + ss[1..] == ss[1..];
    } else {
      RemoveAt(ss[1..], i - 1, id);
      assert [ss[0]] + (ss[1..][..i - 1] + ss[1..][i..]) == ss[..i] + ss[i + 1..];
    }
  }

  // ----- every run

  datatype Step = CheckAt(time: nat) | Arrive(msg: Msg)

  function Next(t: Thread, st: Step): Thread {
    match st
    case CheckAt(time) => Check(t, time)
    case Arrive(msg) => t.(inbox := t.inbox + [msg])
  }

  function After(t: Thread, steps: seq<Step>): Thread
    decreases |steps|
  {
    if steps == [] then t else Next(After(t, steps[..|steps| - 1]), steps[|steps| - 1])
  }

  lemma {:induction false} RunsKeep(t: Thread, steps: seq<Step>)
    requires Inv(t)
    ensures Inv(After(t, steps))
    decreases |steps|
  {
    if steps != [] {
      var n := |steps| - 1;
      RunsKeep(t, steps[..n]);
      if steps[n].CheckAt? {
        CheckKeeps(After(t, steps[..n]), steps[n].time);
      }
    }
  }

  predicate Passes(t: Thread, st: Step) { st.CheckAt? && st.time >= t.deadline }

  /** Until a check passes, only the inbox changes. */
  lemma {:induction false} WaitingChangesNothing(t: Thread, steps: seq<Step>)
    requires forall k :: 0 <= k < |steps| ==> !Passes(t, steps[k])
    ensures After(t, steps) == t.(inbox := After(t, steps).inbox)
    decreases |steps|
  {
    if steps != [] {
      var n := |steps| - 1;
      WaitingChangesNothing(t, steps[..n]);
      assert !Passes(t, steps[n]);
    }
  }

  /** A pass takes place no later than the first check at or after the message deadline, and
      finds the slots as they are now: a pipeline enabled since the last pass is fired by it. */
  lemma NewFiresNext(t: Thread, steps: seq<Step>) returns (m: nat)
    requires Inv(t) && steps != [] && steps[|steps| - 1].CheckAt? && steps[|steps| - 1].time >= t.reqDeadline
    ensures m < |steps| && steps[m].CheckAt?
    ensures var u := After(t, steps[..m]); var time := steps[m].time;
      && u == t.(inbox := u.inbox) && time >= u.deadline && After(t, steps[..m + 1]) == Pass(u, time)
      && (forall i :: 0 <= i < |t.regular| && t.regular[i].deadline == 0 ==>
        Fired(u, time).regular[i].deadline == time + t.regular[i].period)
      && (forall i :: 0 <= i < |t.custom| && t.custom[i].deadline == 0 ==>
        Fired(u, time).custom[i].deadline == time + t.custom[i].period)
  {
    m := FirstPass(t, steps);
    WaitingChangesNothing(t, steps[..m]);
    assert steps[..m + 1][..m] == steps[..m];
  }

  lemma FirstPass(t: Thread, steps: seq<Step>) returns (m: nat)
    requires steps != [] && Passes(t, steps[|steps| - 1])
    ensures m < |steps| && Passes(t, steps[m]) && forall k :: 0 <= k < m ==> !Passes(t, steps[k])
  {
    m := 0;
    while !Passes(t, steps[m])
      invariant m < |steps| && forall k :: 0 <= k < m ==> !Passes(t, steps[k])
      decreases |steps| - m
    {
      m := m + 1;
    }
  }
}
