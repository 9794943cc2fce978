/** The timer part of the worker thread's loop, over its slot arrays. */
module ThreadLoop {
  import opened Basics
  import opened ThreadTimer

  function DueId(s: Slot, time: nat): seq<nat> { if Due(s, time) then [s.id] else [] }

  /** The pipelines whose timer goes off, in order. */
  function DueIds(ss: seq<Slot>, time: nat): seq<nat> {
    if ss == [] then [] else DueIds(ss[..|ss| - 1], time) + DueId(ss[|ss| - 1], time)
  }

  /** A due slot's callback comes after those of the due slots before it. */
  lemma {:induction false} DueAt(ss: seq<Slot>, time: nat, i: nat)
    requires i < |ss| && ss[i].deadline <= time
    ensures var k := |DueIds(ss[..i], time)|; k < |DueIds(ss, time)| && DueIds(ss, time)[k] == ss[i].id
    decreases |ss|
  {
    var n := |ss| - 1;
    if i < n {
      DueAt(ss[..n], time, i);
      assert ss[..n][..i] == ss[..i];
    }
  }

  ghost function DuePlaces(ss: seq<Slot>, time: nat): set<int> { set i | 0 <= i < |ss| && ss[i].deadline <= time }

  lemma DuePlacesNext(ss: seq<Slot>, s: Slot, time: nat)
    ensures DuePlaces(ss + [s], time) == DuePlaces(ss, time) + (if s.deadline <= time then {|ss|} else {})
  {
  }

  /** There are as many callbacks as due slots: each is called back once. */
  lemma {:induction false} DueOnce(ss: seq<Slot>, time: nat)
    ensures |DueIds(ss, time)| == |DuePlaces(ss, time)|
    decreases |ss|
  {
    if ss == [] {
      assert DuePlaces(ss, time) == {};
    } else {
      var n := |ss| - 1;
      DueOnce(ss[..n], time);
      DuePlacesNext(ss[..n], ss[n], time);
      assert ss == ss[..n] + [ss[n]];
    }
  }

  /** A pipeline enabled by a message is called back by the next pass over the timers, which comes no later than the
      first check at or after the message deadline. */
  lemma EnabledIsCalledBack(t: Thread, time: nat, id: nat, period: nat, custom: bool, steps: seq<Step>)
      returns (m: nat)
    requires Inv(t) && Takes(t, time, Enable(id, period, custom))
    requires |if custom then t.custom else t.regular| < 64
    requires steps != [] && steps[|steps| - 1].CheckAt? && steps[|steps| - 1].time >= Check(t, time).reqDeadline
    ensures m < |steps| && steps[m].CheckAt?
    ensures var u := After(Check(t, time), steps[..m]);
      steps[m].time >= u.deadline && id in DueIds(if custom then u.custom else u.regular, steps[m].time)
  {
    var t' := Check(t, time);
    CheckKeeps(t, time);
    EnableEffect(t, time, id, period, custom);
    m := NewFiresNext(t', steps);
    var u := After(t', steps[..m]);
    DueAt(if custom then u.custom else u.regular, steps[m].time, |if custom then t.custom else t.regular|);
  }

  /** The thread has no slot with this id and no message waiting that would enable one. */
  ghost predicate Silent(t: Thread, id: nat) {
    Lacks(t.regular, id) && Lacks(t.custom, id) && NoEnable(t.inbox, id)
  }

  ghost predicate NoEnable(msgs: seq<Msg>, id: nat) {
    forall k :: 0 <= k < |msgs| ==> !(msgs[k].Enable? && msgs[k].id == id)
  }

  lemma ReceiveSilent(t: Thread, id: nat)
    requires Silent(t, id)
    ensures Silent(Receive(t), id)
  {
    if t.inbox != [] {
      assert !(t.inbox[0].Enable? && t.inbox[0].id == id);
    }
  }

  lemma CheckSilent(t: Thread, time: nat, id: nat)
    requires Silent(t, id)
    ensures Silent(Check(t, time), id)
  {
    var f := Fired(t, time);
    assert Silent(f, id);
    ReceiveSilent(f, id);
  }

  lemma {:induction false} RunsSilent(t: Thread, steps: seq<Step>, id: nat)
    requires Silent(t, id)
    requires forall k :: 0 <= k < |steps| && steps[k].Arrive? ==> !(steps[k].msg.Enable? && steps[k].msg.id == id)
    ensures Silent(After(t, steps), id)
    decreases |steps|
  {
    if steps != [] {
      var n := |steps| - 1;
      RunsSilent(t, steps[..n], id);
      if steps[n].CheckAt? {
        CheckSilent(After(t, steps[..n]), steps[n].time, id);
      }
    }
  }

  lemma {:induction false} LackingIsNotDue(ss: seq<Slot>, time: nat, id: nat)
    requires Lacks(ss, id)
    ensures id !in DueIds(ss, time)
    decreases |ss|
  {
    if ss != [] {
      LackingIsNotDue(ss[..|ss| - 1], time, id);
    }
  }

  /** A pipeline whose only slot a message disables is not called back any more, in any run in which no message
      enables it again. */
  lemma DisabledIsSilent(t: Thread, time: nat, id: nat, i: int, steps: seq<Step>, later: nat)
    requires Takes(t, time, Disable(id)) && NoEnable(t.inbox, id)
    requires || (FirstWith(t.regular, id, i) && Lacks(t.regular[i + 1..], id) && Lacks(t.custom, id))
             || (Lacks(t.regular, id) && FirstWith(t.custom, id, i) && Lacks(t.custom[i + 1..], id))
    requires forall k :: 0 <= k < |steps| && steps[k].Arrive? ==> !(steps[k].msg.Enable? && steps[k].msg.id == id)
    ensures var u := After(Check(t, time), steps); id !in DueIds(u.regular, later) && id !in DueIds(u.custom, later)
  {
    DisableEffect(t, time, id);
    CheckEffect(t, time);
    var r, u := Check(t, time), After(Check(t, time), steps);
    assert Silent(r, id);
    RunsSilent(r, steps, id);
    LackingIsNotDue(u.regular, later, id);
    LackingIsNotDue(u.custom, later, id);
  }

  /** The state of the loop over the first `n` of `all` slots after `j` of them. */
  ghost predicate Firing(all: seq<Slot>, n: nat, j: nat, time: nat, none: nat, now: seq<Slot>, earliest: nat,
      ids: seq<nat>)
  {
    && j <= n <= |all| && now == FireAll(all[..n], time)[..j] + all[j..]
    && earliest == Earliest(FireAll(all[..n], time)[..j], none) && ids == DueIds(all[..n][..j], time)
  }

  lemma FiringNext(all: seq<Slot>, n: nat, j: nat, time: nat, none: nat, now: seq<Slot>, earliest: nat, ids: seq<nat>)
    requires Firing(all, n, j, time, none, now, earliest, ids) && j < n
    ensures j < |now| && now[j] == all[j]
    ensures Firing(all, n, j + 1, time, none, now[j := Fire(all[j], time)],
      Min(Fire(all[j], time).deadline, earliest), ids + DueId(all[j], time))
  {
    var ss, fired := all[..n], FireAll(all[..n], time);
    assert ss[..j + 1][..j] == ss[..j] && fired[..j + 1][..j] == fired[..j];
    assert fired[j] == Fire(all[j], time);
    NextSlots(all, fired, j, time);
  }

  lemma FiringDone(all: seq<Slot>, n: nat, time: nat, none: nat, now: seq<Slot>, earliest: nat, ids: seq<nat>)
    requires Firing(all, n, n, time, none, now, earliest, ids)
    ensures now == FireAll(all[..n], time) + all[n..] && earliest == Earliest(FireAll(all[..n], time), none) &&
      ids == DueIds(all[..n], time)
  {
    assert all[..n][..n] == all[..n] && FireAll(all[..n], time)[..n] == FireAll(all[..n], time);
  }

  class Worker {
    const regular: array<Slot>
    const custom: array<Slot>
    var nRegular: nat
    var nCustom: nat
    var deadline: nat
    var reqDeadline: nat
    const period: nat
    var inbox: seq<Msg>
    var outbox: seq<int>
    /** Timer callbacks made so far. */
    var log: seq<nat>

    ghost predicate Valid()
      reads this
    {
      && regular.Length == MAX_PIPELINES && custom.Length == MAX_PIPELINES && regular != custom
      && nRegular <= MAX_PIPELINES && nCustom <= MAX_PIPELINES
    }

    ghost function Now(): Thread
      requires Valid()
      reads this, regular, custom
    {
      Thread(regular[..nRegular], custom[..nCustom], deadline, reqDeadline, period, inbox)
    }

    constructor (time: nat, period: nat)
      ensures Valid() && fresh(regular) && fresh(custom) && Inv(Now()) && log == []
    {
      regular, custom := new Slot[MAX_PIPELINES](_ => Slot(0, 0, 0)), new Slot[MAX_PIPELINES](_ => Slot(0, 0, 0));
      nRegular, nCustom, deadline, reqDeadline, inbox, outbox, log := 0, 0, 0, time + period, [], [], [];
      this.period := period;
    }

    /** One slot's turn. */
    method FireOne(slots: array<Slot>, j: nat, time: nat, tDeadline: nat) returns (earliest: nat)
      requires j < slots.Length
      modifies slots, this`log
      ensures slots[..] == old(slots[..])[j := Fire(old(slots[..])[j], time)]
      ensures earliest == Min(Fire(old(slots[..])[j], time).deadline, tDeadline)
      ensures log == old(log) + DueId(old(slots[..])[j], time)
    {
      var pDeadline := slots[j].deadline;
      if pDeadline <= time {
        log := log + [slots[j].id];
        pDeadline := time + slots[j].period;
        slots[j] := slots[j].(deadline := pDeadline);
      }
      earliest := if pDeadline < tDeadline then pDeadline else tDeadline;
    }

    /** One of the two loops over slots. */
    method FireSlots(slots: array<Slot>, n: nat, time: nat, tDeadline: nat) returns (earliest: nat)
      requires n <= slots.Length
      modifies slots, this`log
      ensures slots[..] == FireAll(old(slots[..])[..n], time) + old(slots[..])[n..]
      ensures earliest == Earliest(FireAll(old(slots[..])[..n], time), tDeadline)
      ensures log == old(log) + DueIds(old(slots[..])[..n], time)
    {
      ghost var all := slots[..];
      ghost var ids: seq<nat> := [];
      earliest := tDeadline;
      for j := 0 to n
        invariant Firing(all, n, j, time, tDeadline, slots[..], earliest, ids)
        invariant log == old(log) + ids
      {
        FiringNext(all, n, j, time, tDeadline, slots[..], earliest, ids);
        Associate(old(log), ids, DueId(all[j], time));
        earliest := FireOne(slots, j, time, earliest);
        ids := ids + DueId(all[j], time);
      }
      FiringDone(all, n, time, tDeadline, slots[..], earliest, ids);
    }

    /** Both loops. */
    method FireBoth(time: nat) returns (tDeadline: nat)
      requires Valid()
      modifies this`log, regular, custom
      ensures Now() == Fired(old(Now()), time)
      ensures tDeadline == Earliest(Now().custom, Earliest(Now().regular, NEVER))
      ensures log == old(log) + (DueIds(old(Now()).regular, time) + DueIds(old(Now()).custom, time))
    {
      ghost var r, c := regular[..], custom[..];
      Prefixes(r, nRegular, time);
      Prefixes(c, nCustom, time);
      tDeadline := FireSlots(regular, nRegular, time, NEVER);
      tDeadline := FireSlots(custom, nCustom, time, tDeadline);
      assert regular[..nRegular] == regular[..][..nRegular] && custom[..nCustom] == custom[..][..nCustom];
      Associate(old(log), DueIds(r[..nRegular], time), DueIds(c[..nCustom], time));
    }

    /** The search of one slot array in thread_pipeline_disable, closing the gap on success. */
    method RemoveFrom(slots: array<Slot>, n: nat, id: nat) returns (found: bool)
      requires n <= slots.Length
      modifies slots
      ensures found ==> n > 0 && Remove(old(slots[..n]), id) == Some(slots[..n - 1])
      ensures !found ==> Remove(old(slots[..n]), id) == None && slots[..] == old(slots[..])
    {
      ghost var ss := slots[..n];
      for i := 0 to n
        invariant slots[..] == old(slots[..]) && forall k :: 0 <= k < i ==> ss[k].id != id
      {
        if slots[i].id == id {
          RemoveAt(ss, i, id);
          forall k | i <= k < n - 1 {
            slots[k] := slots[k + 1];
          }
          assert slots[..n - 1] == ss[..i] + ss[i + 1..];
          return true;
        }
      }
      return false;
    }

    /** thread_pipeline_enable. */
    method EnablePipeline(id: nat, timerPeriod: nat, isCustom: bool) returns (status: int)
      requires Valid()
      modifies this`nRegular, this`nCustom, regular, custom
      ensures Valid() && (Now(), status) == Handle(old(Now()), Enable(id, timerPeriod, isCustom))
    {
      if !isCustom {
        if nRegular >= MAX_PIPELINES {
          return -1;
        }
        regular[nRegular] := Slot(id, timerPeriod, 0);
        nRegular := nRegular + 1;
        assert regular[..nRegular] == old(regular[..nRegular]) + [Slot(id, timerPeriod, 0)];
        assert custom[..nCustom] == old(custom[..nCustom]);
      } else {
        if nCustom >= MAX_PIPELINES {
          return -1;
        }
        custom[nCustom] := Slot(id, timerPeriod, 0);
        nCustom := nCustom + 1;
        assert custom[..nCustom] == old(custom[..nCustom]) + [Slot(id, timerPeriod, 0)];
        assert regular[..nRegular] == old(regular[..nRegular]);
      }
      status := 0;
    }

    /** thread_pipeline_disable. */
    method DisablePipeline(id: nat) returns (status: int)
      requires Valid()
      modifies this`nRegular, this`nCustom, regular, custom
      ensures Valid() && (Now(), status) == Handle(old(Now()), Disable(id))
    {
      var found := RemoveFrom(regular, nRegular, id);
      if found {
        nRegular := nRegular - 1;
        return 0;
      }
      found := RemoveFrom(custom, nCustom, id);
      if found {
        nCustom := nCustom - 1;
        return 0;
      }
      return -1;
    }

    /** thread_msg_req_handle: at most one message. */
    method HandleMessage()
      requires Valid()
      modifies this`nRegular, this`nCustom, this`inbox, this`outbox, regular, custom
      ensures Valid() && Now() == Receive(old(Now()))
      ensures outbox == old(outbox) + if old(inbox) == [] then [] else [Handle(old(Now()), old(inbox)[0]).1]
    {
      if inbox == [] {
        return;
      }
      var msg := inbox[0];
      inbox := inbox[1..];
      var status := 0;
      match msg {
        case Enable(id, timerPeriod, isCustom) => status := EnablePipeline(id, timerPeriod, isCustom);
        case Disable(id) => status := DisablePipeline(id);
        case ReadHeadroom =>
      }
      outbox := outbox + [status];
    }

    /** The timer block of the loop body: the new state, and each due timer's callback once. */
    method TimerCheck(time: nat)
      requires Valid()
      modifies this, regular, custom
      ensures Valid() && Now() == Check(old(Now()), time)
      ensures log == old(log) + if time < old(deadline) then []
        else DueIds(old(Now()).regular, time) + DueIds(old(Now()).custom, time)
    {
      if time < deadline {
        return;
      }
      var tDeadline := FireBoth(time);
      if reqDeadline <= time {
        HandleMessage();
        reqDeadline := time + period;
      }
      deadline := if reqDeadline < tDeadline then reqDeadline else tDeadline;
    }
  }

  lemma Prefixes(all: seq<Slot>, n: nat, time: nat)
    requires n <= |all|
    ensures (FireAll(all[..n], time) + all[n..])[..n] == FireAll(all[..n], time)
  {
  }

  lemma NextSlots(all: seq<Slot>, fired: seq<Slot>, j: nat, time: nat)
    requires j < |fired| <= |all| && fired[j] == Fire(all[j], time)
    ensures (fired[..j] + all[j..])[j] == all[j]
    ensures (fired[..j] + all[j..])[j := Fire(all[j], time)] == fired[..j + 1] + all[j + 1..]
  {
  }
}
