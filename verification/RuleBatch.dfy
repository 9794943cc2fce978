/** The back end's four table operations, and what they leave a key looking up to. */
module RuleBatch {
  import opened Basics
  import opened RuleTable

  const EINVAL := -22
  const ENOSPC := -28

  /** An outcome: the table, the status, and which keys were already there. */
  datatype Outcome<K> = Outcome(slots: Slots<K>, status: int, found: seq<bool>)

  function SetPort<K>(s: Slots<K>, i: nat, port: nat): Slots<K>
    requires i < |s| && s[i].Some?
  {
    s[i := Some(s[i].value.(port := port))]
  }

  /** What adding a rule turns a key's rule into: its port, and its priority only if the key is new. */
  function Merge<K>(old_: Option<Rule<K>>, r: Rule<K>): Rule<K> {
    if old_.None? then r else old_.value.(port := r.port)
  }

  /** rte_table_acl_entry_add; a negative priority makes the rebuild fail, which is rolled back. */
  function EntryAdd<K(==)>(s: Slots<K>, r: Rule<K>): (o: Outcome<K>)
    requires s != []
    ensures |o.slots| == |s|
  {
    if r.priority > MAX_PRIORITY then Outcome(s, EINVAL, [false])
    else match Find(s, r.key)
      case Some(i) => Outcome(SetPort(s, i, r.port), 0, [true])
      case None =>
        match Free(s)
        case None => Outcome(s, ENOSPC, [false])
        case Some(i) => if r.priority < 0 then Outcome(s, EINVAL, [false]) else Outcome(s[i := Some(r)], 0, [false])
  }

  /** rte_table_acl_entry_delete. */
  function EntryDelete<K(==)>(s: Slots<K>, key: K): (o: Outcome<K>)
    requires s != []
    ensures |o.slots| == |s|
  {
    match Find(s, key)
    case Some(i) => Outcome(s[i := None], 0, [true])
    case None => Outcome(s, 0, [false])
  }

  // ----- adding a batch

  /** Requests placed so far: the table, the position each new rule got (0: key found), and whether room ran out. */
  datatype Filled<K> = Filled(slots: Slots<K>, pos: seq<nat>, full: bool)

  function FillOne<K(==)>(f: Filled<K>, r: Rule<K>): (g: Filled<K>)
    requires f.slots != []
    ensures |g.slots| == |f.slots| && (!g.full ==> |g.pos| == |f.pos| + 1) && (f.full ==> g == f)
  {
    if f.full then f
    else match Find(f.slots, r.key)
      case Some(i) => Filled(SetPort(f.slots, i, r.port), f.pos + [0], false)
      case None =>
        match Free(f.slots)
        case None => f.(full := true)
        case Some(i) => Filled(f.slots[i := Some(r)], f.pos + [i], false)
  }

  function FillAll<K(==)>(s: Slots<K>, rs: seq<Rule<K>>): (f: Filled<K>)
    requires s != []
    ensures |f.slots| == |s| && |f.pos| <= |rs| && (!f.full ==> |f.pos| == |rs|)
    ensures forall i :: 0 <= i < |f.pos| ==> f.pos[i] < |s|
  {
    if rs == [] then Filled(s, [], false) else FillOne(FillAll(s, rs[..|rs| - 1]), rs[|rs| - 1])
  }

  /** Takes the new rules out again. */
  function Undo<K>(s: Slots<K>, pos: seq<nat>): (r: Slots<K>)
    ensures |r| == |s| && forall j :: 0 <= j < |s| ==> r[j] == if j != 0 && j in pos then None else s[j]
  {
    seq(|s|, j requires 0 <= j < |s| => if j != 0 && j in pos then None else s[j])
  }

  /** A new rule that the rebuild would refuse. */
  predicate Negative<K>(pos: seq<nat>, rs: seq<Rule<K>>) {
    exists i :: 0 <= i < |pos| && i < |rs| && pos[i] != 0 && rs[i].priority < 0
  }

  predicate TooHigh<K>(rs: seq<Rule<K>>) { exists i :: 0 <= i < |rs| && rs[i].priority > MAX_PRIORITY }

  function Flags(pos: seq<nat>): (b: seq<bool>)
    ensures |b| == |pos| && forall i :: 0 <= i < |pos| ==> b[i] == (pos[i] == 0)
  {
    seq(|pos|, i requires 0 <= i < |pos| => pos[i] == 0)
  }

  /** The last loop of a successful batch: every new rule gets the port of the request that placed it. */
  function Commit<K>(s: Slots<K>, pos: seq<nat>, rs: seq<Rule<K>>, n: nat): (r: Slots<K>)
    requires n <= |pos| && n <= |rs|
    ensures |r| == |s|
  {
    if n == 0 then s
    else
      var t, p := Commit(s, pos, rs, n - 1), pos[n - 1];
      if p != 0 && p < |t| && t[p].Some? then SetPort(t, p, rs[n - 1].port) else t
  }

  /** rte_table_acl_entry_add_bulk: on failure the new rules go, but ports already changed stay changed. */
  function EntryAddBulk<K(==)>(s: Slots<K>, rs: seq<Rule<K>>): (o: Outcome<K>)
    requires s != []
    ensures |o.slots| == |s| && (o.status == 0 ==> |o.found| == |rs|)
  {
    if rs == [] || TooHigh(rs) then Outcome(s, EINVAL, [])
    else
      var f := FillAll(s, rs);
      if f.full then Outcome(Undo(f.slots, f.pos), ENOSPC, [])
      else if Negative(f.pos, rs) then Outcome(Undo(f.slots, f.pos), EINVAL, [])
      else Outcome(Commit(f.slots, f.pos, rs, |rs|), 0, Flags(f.pos))
  }

  // ----- deleting a batch

  function RemoveOne<K(==)>(s: Slots<K>, key: K): (r: Slots<K>)
    requires s != []
    ensures |r| == |s|
  {
    match Find(s, key) case Some(i) => s[i := None] case None => s
  }

  function RemoveAll<K(==)>(s: Slots<K>, keys: seq<K>): (r: Slots<K>)
    requires s != []
    ensures |r| == |s|
  {
    if keys == [] then s else RemoveOne(RemoveAll(s, keys[..|keys| - 1]), keys[|keys| - 1])
  }

  /** Which keys were there when their turn came. */
  function FoundAll<K(==)>(s: Slots<K>, keys: seq<K>): (b: seq<bool>)
    requires s != []
    ensures |b| == |keys|
  {
    if keys == [] then []
    else var n := |keys| - 1; FoundAll(s, keys[..n]) + [Find(RemoveAll(s, keys[..n]), keys[n]).Some?]
  }

  /** rte_table_acl_entry_delete_bulk: whatever is there goes; keys that are not there are only reported. */
  function EntryDeleteBulk<K(==)>(s: Slots<K>, keys: seq<K>): (o: Outcome<K>)
    requires s != []
    ensures |o.slots| == |s|
  {
    if keys == [] then Outcome(s, EINVAL, [])
    else Outcome(RemoveAll(s, keys), 0, FoundAll(s, keys))
  }

  // ----- lookups afterwards

  /** What looking up a key should give after the requests were placed: the first of them makes a new
      rule, every later one changes its port.  Without `keep` the new rules are gone again. */
  ghost function Expect<K(!new)>(s: Slots<K>, rs: seq<Rule<K>>, k: K, keep: bool): Option<Rule<K>>
    requires s != []
  {
    if rs == [] then Lookup(s, k)
    else
      var r, before := rs[|rs| - 1], Expect(s, rs[..|rs| - 1], k, keep);
      if r.key != k then before
      else if before.Some? then Some(before.value.(port := r.port))
      else if keep then Some(r) else None
  }

  ghost predicate Unmentioned<K(!new)>(rs: seq<Rule<K>>, k: K) { forall i :: 0 <= i < |rs| ==> rs[i].key != k }

  /** The table lacks the key and no request before mentions it. */
  ghost predicate IsNew<K(!new)>(s: Slots<K>, rs: seq<Rule<K>>, k: K)
    requires s != []
  {
    Lookup(s, k).None? && Unmentioned(rs, k)
  }

  lemma {:induction false} ExpectSome<K(!new)>(s: Slots<K>, rs: seq<Rule<K>>, k: K)
    requires s != []
    ensures Expect(s, rs, k, true).Some? <==> !IsNew(s, rs, k)
    ensures Expect(s, rs, k, false).Some? <==> Lookup(s, k).Some?
    decreases |rs|
  {
    if rs != [] {
      var n := |rs| - 1;
      ExpectSome(s, rs[..n], k);
      assert rs == rs[..n] + [rs[n]];
      UnmentionedNext(rs[..n], rs[n], k);
    }
  }

  lemma UnmentionedNext<K(!new)>(rs: seq<Rule<K>>, r: Rule<K>, k: K)
    ensures Unmentioned(rs + [r], k) <==> Unmentioned(rs, k) && r.key != k
  {
    assert (rs + [r])[|rs|] == r;
    assert forall i :: 0 <= i < |rs| ==> (rs + [r])[i] == rs[i];
  }

  /** Every new rule is where it was put. */
  ghost predicate Positioned<K(!new)>(s: Slots<K>, rs: seq<Rule<K>>, f: Filled<K>)
    requires s != []
  {
    && |f.slots| == |s| && !f.full && |f.pos| == |rs|
    && (forall i :: 0 <= i < |rs| ==> (f.pos[i] == 0 <==> !IsNew(s, rs[..i], rs[i].key)))
    && (forall i :: 0 <= i < |rs| && f.pos[i] != 0 ==> HoldsKey(f.slots, f.pos[i], rs[i].key))
  }

  /** Every lookup is as expected, with the new rules and without them. */
  ghost predicate Answers<K(!new)>(s: Slots<K>, rs: seq<Rule<K>>, f: Filled<K>)
    requires s != [] && f.slots != []
  {
    && Unique(f.slots) && Unique(Undo(f.slots, f.pos))
    && (forall k :: Lookup(f.slots, k) == Expect(s, rs, k, true))
    && (forall k :: Lookup(Undo(f.slots, f.pos), k) == Expect(s, rs, k, false))
  }

  ghost predicate Placed<K(!new)>(s: Slots<K>, rs: seq<Rule<K>>, f: Filled<K>)
    requires s != []
  {
    Positioned(s, rs, f) && Answers(s, rs, f)
  }

  lemma PlacedNone<K(!new)>(s: Slots<K>)
    requires s != [] && Unique(s)
    ensures Placed(s, [], Filled(s, [], false))
  {
    assert Undo(s, []) == s;
  }

  lemma PositionedNext<K(!new)>(s: Slots<K>, rs: seq<Rule<K>>, f: Filled<K>, r: Rule<K>, slots: Slots<K>, p: nat)
    requires s != [] && Positioned(s, rs, f) && |slots| == |s|
    requires forall j, k :: 1 <= j < |s| && HoldsKey(f.slots, j, k) ==> HoldsKey(slots, j, k)
    requires p == 0 <==> !IsNew(s, rs, r.key)
    requires p != 0 ==> HoldsKey(slots, p, r.key)
    ensures Positioned(s, rs + [r], Filled(slots, f.pos + [p], false))
  {
    var rs' := rs + [r];
    assert rs'[..|rs|] == rs;
    forall i | 0 <= i < |rs| ensures rs'[..i] == rs[..i] && rs'[i] == rs[i] {
    }
  }

  lemma UndoNew<K>(s: Slots<K>, pos: seq<nat>, i: nat, r: Rule<K>)
    requires 1 <= i < |s| && s[i].None?
    ensures Undo(s[i := Some(r)], pos + [i]) == Undo(s, pos)
  {
  }

  /** The key is found on a rule that was there, or on one that this batch placed. */
  lemma UndoFound<K>(s: Slots<K>, pos: seq<nat>, i: nat, r: Rule<K>)
    requires 1 <= i < |s|
    ensures i in pos ==> Undo(s[i := Some(r)], pos + [0]) == Undo(s, pos)
    ensures i !in pos ==> Undo(s[i := Some(r)], pos + [0]) == Undo(s, pos)[i := Some(r)]
  {
  }

  lemma AnswersFound<K(!new)>(s: Slots<K>, rs: seq<Rule<K>>, f: Filled<K>, r: Rule<K>, i: nat)
    requires s != [] && Positioned(s, rs, f) && Answers(s, rs, f) && Find(f.slots, r.key) == Some(i)
    ensures Answers(s, rs + [r], Filled(SetPort(f.slots, i, r.port), f.pos + [0], false))
  {
    var rs', rule := rs + [r], f.slots[i].value.(port := r.port);
    var u := Undo(f.slots, f.pos);
    assert rs'[..|rs|] == rs;
    UndoFound(f.slots, f.pos, i, rule);
    LookupReplace(f.slots, i, rule, r.key);
    forall k ensures Lookup(f.slots[i := Some(rule)], k) == Expect(s, rs', k, true) {
      LookupReplace(f.slots, i, rule, k);
    }
    if i in f.pos {
      assert Lookup(u, r.key).None? by { FoundOnNew(f.slots, f.pos, i); }
    } else {
      LookupReplace(u, i, rule, r.key);
      LookupAt(u, i);
      forall k ensures Lookup(u[i := Some(rule)], k) == Expect(s, rs', k, false) {
        LookupReplace(u, i, rule, k);
      }
    }
  }

  /** A rule that the batch placed is the only one under its key, so undoing leaves none. */
  lemma FoundOnNew<K(!new)>(s: Slots<K>, pos: seq<nat>, i: nat)
    requires Unique(s) && 1 <= i < |s| && s[i].Some? && i in pos
    ensures Lookup(Undo(s, pos), s[i].value.key).None?
  {
    var u, k := Undo(s, pos), s[i].value.key;
    forall j | 1 <= j < |u| ensures !HoldsKey(u, j, k) {
      if j != i && s[j].Some? {
        assert s[j].value.key != k;
      }
    }
  }

  lemma AnswersNew<K(!new)>(s: Slots<K>, rs: seq<Rule<K>>, f: Filled<K>, r: Rule<K>, i: nat)
    requires s != [] && f.slots != [] && Answers(s, rs, f) && Lookup(f.slots, r.key) == None
    requires 1 <= i < |f.slots| && f.slots[i].None?
    ensures Answers(s, rs + [r], Filled(f.slots[i := Some(r)], f.pos + [i], false))
  {
    var rs' := rs + [r];
    assert rs'[..|rs|] == rs;
    ExpectSome(s, rs, r.key);
    UndoNew(f.slots, f.pos, i, r);
    LookupInsert(f.slots, i, r, r.key);
    forall k ensures Lookup(f.slots[i := Some(r)], k) == Expect(s, rs', k, true) {
      LookupInsert(f.slots, i, r, k);
    }
  }

  lemma PlacedNext<K(!new)>(s: Slots<K>, rs: seq<Rule<K>>, f: Filled<K>, r: Rule<K>)
    requires s != [] && Placed(s, rs, f) && !FillOne(f, r).full
    ensures Placed(s, rs + [r], FillOne(f, r))
  {
    ExpectSome(s, rs, r.key);
    assert Lookup(f.slots, r.key) == Expect(s, rs, r.key, true);
    match Find(f.slots, r.key)
    case Some(i) =>
      AnswersFound(s, rs, f, r, i);
      PositionedNext(s, rs, f, r, SetPort(f.slots, i, r.port), 0);
    case None =>
      match Free(f.slots)
      case Some(i) =>
        AnswersNew(s, rs, f, r, i);
        PositionedNext(s, rs, f, r, f.slots[i := Some(r)], i);
  }

  /** Placing requests leaves every lookup as expected, and undoing it only the changed ports. */
  lemma {:induction false} FillPlaces<K(!new)>(s: Slots<K>, rs: seq<Rule<K>>)
    requires s != [] && Unique(s) && !FillAll(s, rs).full
    ensures Placed(s, rs, FillAll(s, rs))
    decreases |rs|
  {
    if rs == [] {
      PlacedNone(s);
    } else {
      var n := |rs| - 1;
      FillPlaces(s, rs[..n]);
      assert rs == rs[..n] + [rs[n]];
      PlacedNext(s, rs[..n], FillAll(s, rs[..n]), rs[n]);
    }
  }

  /** When room runs out, the requests placed so far are a prefix. */
  lemma {:induction false} FillStops<K(!new)>(s: Slots<K>, rs: seq<Rule<K>>)
    requires s != []
    ensures var f := FillAll(s, rs);
      |f.pos| <= |rs| && FillAll(s, rs[..|f.pos|]) == f.(full := false)
    decreases |rs|
  {
    if rs != [] {
      var n := |rs| - 1;
      FillStops(s, rs[..n]);
      var f := FillAll(s, rs);
      if |f.pos| <= n {
        assert rs[..n][..|f.pos|] == rs[..|f.pos|];
      } else {
        assert rs[..|rs|] == rs;
      }
    }
  }

  // ----- committing

  /** The same rules but for their ports. */
  ghost predicate SameKeys<K(!new)>(s: Slots<K>, t: Slots<K>) {
    |s| == |t| && forall j :: 0 <= j < |s| ==>
      s[j].Some? == t[j].Some? && (s[j].Some? ==> s[j].value.key == t[j].value.key)
  }

  lemma {:induction false} CommitKeepsKeys<K(!new)>(s: Slots<K>, pos: seq<nat>, rs: seq<Rule<K>>, n: nat)
    requires n <= |pos| && n <= |rs|
    ensures SameKeys(s, Commit(s, pos, rs, n))
    decreases n
  {
    if n != 0 {
      CommitKeepsKeys(s, pos, rs, n - 1);
    }
  }

  lemma {:induction false} SameKeysFind<K(!new)>(s: Slots<K>, t: Slots<K>, k: K, i: nat)
    requires SameKeys(s, t) && i <= |s|
    ensures FindFrom(s, k, i) == FindFrom(t, k, i)
    decreases |s| - i
  {
    if i < |s| {
      SameKeysFind(s, t, k, i + 1);
    }
  }

  /** Committing changes no rule that was placed by its only request. */
  lemma {:induction false} CommitIdle<K(!new)>(s: Slots<K>, pos: seq<nat>, rs: seq<Rule<K>>, n: nat)
    requires n <= |pos| && n <= |rs|
    requires forall i :: 0 <= i < n && pos[i] != 0 ==> pos[i] < |s| && s[pos[i]] == Some(rs[i])
    ensures Commit(s, pos, rs, n) == s
    decreases n
  {
    if n != 0 {
      CommitIdle(s, pos, rs, n - 1);
    }
  }
}
