/** Front end and back end of the firewall together: when the rule list mirrors the table. */
module FirewallMirror {
  import opened Basics
  import opened RuleTable
  import opened RuleBatch
  import opened RuleList

  datatype System<K> = System(fe: Rules<K>, be: Slots<K>)

  ghost predicate Sound<K(!new)>(sys: System<K>) { Keyed(sys.fe) && sys.be != [] && Unique(sys.be) }

  /** The same keys, with the same ports. */
  predicate Agree<K>(a: Option<Rule<K>>, b: Option<Rule<K>>) {
    a.Some? == b.Some? && (a.Some? ==> a.value.port == b.value.port)
  }

  ghost predicate Mirror<K(!new)>(sys: System<K>) {
    Sound(sys) && forall k :: Agree(RuleFor(sys.fe, k), Lookup(sys.be, k))
  }

  /** The same rules, priorities included. */
  ghost predicate Exact<K(!new)>(sys: System<K>) {
    Sound(sys) && forall k :: RuleFor(sys.fe, k) == Lookup(sys.be, k)
  }

  // ----- the operations; `accept` is the outcome of the front end's checks of key and port

  function AddRule<K(==)>(sys: System<K>, r: Rule<K>, accept: bool): (System<K>, int)
    requires sys.be != []
  {
    if !accept then (sys, -1)
    else
      var o := EntryAdd(sys.be, r);
      if o.status != 0 || IndexOf(sys.fe, r.key).Some? != o.found[0] then (System(sys.fe, o.slots), -1)
      else (System(Put(sys.fe, r), o.slots), 0)
  }

  function DeleteRule<K(==)>(sys: System<K>, key: K, accept: bool): (System<K>, int)
    requires sys.be != []
  {
    if !accept then (sys, -1)
    else if IndexOf(sys.fe, key).None? then (sys, 0)
    else
      var o := EntryDelete(sys.be, key);
      if !o.found[0] then (System(sys.fe, o.slots), -1) else (System(Drop(sys.fe, key), o.slots), 0)
  }

  // ----- one rule

  lemma EntryAddLookup<K(!new)>(s: Slots<K>, r: Rule<K>, k: K)
    requires s != [] && Unique(s)
    ensures var o := EntryAdd(s, r);
      && Unique(o.slots) && o.found == [o.status == 0 && Lookup(s, r.key).Some?]
      && Lookup(o.slots, k) == (if k == r.key && o.status == 0 then Some(Merge(Lookup(s, k), r)) else Lookup(s, k))
      && (o.status == 0 ==> r.priority <= MAX_PRIORITY)
      && (r.priority <= MAX_PRIORITY && Lookup(s, r.key).Some? ==> o.status == 0)
  {
    if r.priority <= MAX_PRIORITY {
      match Find(s, r.key)
      case Some(i) => LookupReplace(s, i, s[i].value.(port := r.port), k);
      case None =>
        match Free(s)
        case None =>
        case Some(i) => if r.priority >= 0 { LookupInsert(s, i, r, k); }
    }
  }

  /** Adding a rule keeps keys and ports in step, whatever comes of it. */
  lemma AddRuleMirrors<K(!new)>(sys: System<K>, r: Rule<K>, accept: bool)
    requires Mirror(sys)
    ensures Mirror(AddRule(sys, r, accept).0)
  {
    if accept {
      EntryAddLookup(sys.be, r, r.key);
      PutKeeps(sys.fe, r);
      forall k ensures Agree(RuleFor(AddRule(sys, r, accept).0.fe, k), Lookup(AddRule(sys, r, accept).0.be, k)) {
        EntryAddLookup(sys.be, r, k);
        RuleForPut(sys.fe, r, k);
        assert Agree(RuleFor(sys.fe, k), Lookup(sys.be, k)) && Agree(RuleFor(sys.fe, r.key), Lookup(sys.be, r.key));
      }
    }
  }

  /** The call changes the front end's priority of a key whose priority the back end keeps. */
  predicate Reprioritizes<K(==)>(sys: System<K>, r: Rule<K>, accept: bool)
    requires sys.be != []
  {
    accept && r.priority <= MAX_PRIORITY && Lookup(sys.be, r.key).Some? &&
      Lookup(sys.be, r.key).value.priority != r.priority
  }

  /** Priorities stay in step exactly when no existing rule is added again with another priority. */
  lemma AddRuleExact<K(!new)>(sys: System<K>, r: Rule<K>, accept: bool)
    requires Exact(sys)
    ensures Exact(AddRule(sys, r, accept).0) <==> !Reprioritizes(sys, r, accept)
  {
    if accept {
      var sys' := AddRule(sys, r, accept).0;
      EntryAddLookup(sys.be, r, r.key);
      PutKeeps(sys.fe, r);
      RuleForPut(sys.fe, r, r.key);
      assert RuleFor(sys.fe, r.key) == Lookup(sys.be, r.key);
      if !Reprioritizes(sys, r, accept) {
        forall k ensures RuleFor(sys'.fe, k) == Lookup(sys'.be, k) {
          EntryAddLookup(sys.be, r, k);
          RuleForPut(sys.fe, r, k);
        }
      } else {
        assert RuleFor(sys'.fe, r.key) != Lookup(sys'.be, r.key);
      }
    }
  }

  lemma DeleteRuleKeeps<K(!new)>(sys: System<K>, key: K, accept: bool)
    requires Mirror(sys)
    ensures Mirror(DeleteRule(sys, key, accept).0) && (Exact(sys) ==> Exact(DeleteRule(sys, key, accept).0))
    ensures accept ==> DeleteRule(sys, key, accept).1 == 0
  {
    assert Agree(RuleFor(sys.fe, key), Lookup(sys.be, key));
    if accept && IndexOf(sys.fe, key).Some? {
      var sys' := DeleteRule(sys, key, accept).0;
      var i := Find(sys.be, key).value;
      DropKeeps(sys.fe, key);
      LookupClear(sys.be, i, key);
      forall k
        ensures Agree(RuleFor(sys'.fe, k), Lookup(sys'.be, k)) &&
          (Exact(sys) ==> RuleFor(sys'.fe, k) == Lookup(sys'.be, k))
      {
        LookupClear(sys.be, i, k);
        RuleForDrop(sys.fe, key, k);
        assert Agree(RuleFor(sys.fe, k), Lookup(sys.be, k));
      }
    }
  }

  // ----- batches

  function PutAll<K(==)>(l: Rules<K>, rs: seq<Rule<K>>): Rules<K> {
    if rs == [] then l else Put(PutAll(l, rs[..|rs| - 1]), rs[|rs| - 1])
  }

  function DropAll<K(==)>(l: Rules<K>, keys: seq<K>): Rules<K> {
    if keys == [] then l else Drop(DropAll(l, keys[..|keys| - 1]), keys[|keys| - 1])
  }

  /** The back end's view of which keys were there contradicts the front end's. */
  predicate Contradicted<K(==)>(l: Rules<K>, rs: seq<Rule<K>>, found: seq<bool>)
    requires |found| == |rs|
  {
    exists i :: 0 <= i < |rs| && IndexOf(l, rs[i].key).Some? != found[i]
  }

  function AddBulk<K(==)>(sys: System<K>, rs: seq<Rule<K>>, accept: bool): (System<K>, int)
    requires sys.be != []
  {
    if !accept || rs == [] then (sys, -1)
    else
      var o := EntryAddBulk(sys.be, rs);
      if o.status != 0 || Contradicted(sys.fe, rs, o.found) then (System(sys.fe, o.slots), -1)
      else (System(PutAll(sys.fe, rs), o.slots), 0)
  }

  function DeleteBulk<K(==)>(sys: System<K>, keys: seq<K>, accept: bool): (System<K>, int)
    requires sys.be != []
  {
    if !accept || keys == [] then (sys, -1)
    else
      var o := EntryDeleteBulk(sys.be, keys);
      if false in o.found then (System(sys.fe, o.slots), -1) else (System(DropAll(sys.fe, keys), o.slots), 0)
  }

  // ----- adding a batch

  /** What the front end has for a key after a batch. */
  ghost function Written<K(!new)>(l: Rules<K>, rs: seq<Rule<K>>, k: K): Option<Rule<K>> {
    if rs == [] then RuleFor(l, k)
    else if rs[|rs| - 1].key == k then Some(rs[|rs| - 1])
    else Written(l, rs[..|rs| - 1], k)
  }

  lemma {:induction false} PutAllWrites<K(!new)>(l: Rules<K>, rs: seq<Rule<K>>)
    requires Keyed(l)
    ensures Keyed(PutAll(l, rs)) && forall k :: RuleFor(PutAll(l, rs), k) == Written(l, rs, k)
    decreases |rs|
  {
    if rs != [] {
      var n := |rs| - 1;
      PutAllWrites(l, rs[..n]);
      PutKeeps(PutAll(l, rs[..n]), rs[n]);
      forall k ensures RuleFor(PutAll(l, rs), k) == Written(l, rs, k) {
        RuleForPut(PutAll(l, rs[..n]), rs[n], k);
      }
    }
  }

  lemma {:induction false} WrittenAgrees<K(!new)>(sys: System<K>, rs: seq<Rule<K>>, k: K)
    requires Mirror(sys)
    ensures Agree(Written(sys.fe, rs, k), Expect(sys.be, rs, k, true))
    decreases |rs|
  {
    if rs == [] {
      assert Agree(RuleFor(sys.fe, k), Lookup(sys.be, k));
    } else {
      WrittenAgrees(sys, rs[..|rs| - 1], k);
    }
  }

  /** A request for an existing key with another port. */
  ghost predicate Moves<K(!new)>(s: Slots<K>, r: Rule<K>)
    requires s != []
  {
    Lookup(s, r.key).Some? && Lookup(s, r.key).value.port != r.port
  }

  // ----- a batch may mention a key more than once: the last mention decides

  ghost predicate LastMention<K(!new)>(rs: seq<Rule<K>>, i: int) {
    0 <= i < |rs| && forall j :: i < j < |rs| ==> rs[j].key != rs[i].key
  }

  lemma {:induction false} HasLastMention<K(!new)>(rs: seq<Rule<K>>, k: K) returns (i: int)
    requires !Unmentioned(rs, k)
    ensures LastMention(rs, i) && rs[i].key == k
    decreases |rs|
  {
    var n := |rs| - 1;
    if rs[n].key == k {
      i := n;
    } else {
      assert !Unmentioned(rs[..n], k) by {
        var j :| 0 <= j < |rs| && rs[j].key == k;
        assert rs[..n][j].key == k;
      }
      i := HasLastMention(rs[..n], k);
    }
  }

  lemma {:induction false} UnmentionedStays<K(!new)>(sys: System<K>, rs: seq<Rule<K>>, k: K, keep: bool)
    requires sys.be != [] && Unmentioned(rs, k)
    ensures Expect(sys.be, rs, k, keep) == Lookup(sys.be, k) && Written(sys.fe, rs, k) == RuleFor(sys.fe, k)
    decreases |rs|
  {
    if rs != [] {
      UnmentionedStays(sys, rs[..|rs| - 1], k, keep);
    }
  }

  lemma {:induction false} WrittenLast<K(!new)>(l: Rules<K>, rs: seq<Rule<K>>, i: nat)
    requires LastMention(rs, i)
    ensures Written(l, rs, rs[i].key) == Some(rs[i])
    decreases |rs|
  {
    if i < |rs| - 1 {
      assert rs[|rs| - 1].key != rs[i].key;
      WrittenLast(l, rs[..|rs| - 1], i);
    }
  }

  /** A key that was there keeps its rule, with the port of its last mention. */
  lemma {:induction false} ExpectLast<K(!new)>(s: Slots<K>, rs: seq<Rule<K>>, i: nat, keep: bool)
    requires s != [] && LastMention(rs, i) && Lookup(s, rs[i].key).Some?
    ensures Expect(s, rs, rs[i].key, keep) == Some(Lookup(s, rs[i].key).value.(port := rs[i].port))
    decreases |rs|
  {
    var n := |rs| - 1;
    if i < n {
      assert rs[n].key != rs[i].key;
      ExpectLast(s, rs[..n], i, keep);
    } else if !Unmentioned(rs[..n], rs[n].key) {
      var j := HasLastMention(rs[..n], rs[n].key);
      ExpectLast(s, rs[..n], j, keep);
    } else {
      UnmentionedStays(System([], s), rs[..n], rs[n].key, keep);
    }
  }

  /** A key that was not there has the rule of its only mention. */
  lemma {:induction false} ExpectOnly<K(!new)>(s: Slots<K>, rs: seq<Rule<K>>, i: nat)
    requires s != [] && LastMention(rs, i) && IsNew(s, rs[..i], rs[i].key)
    ensures Expect(s, rs, rs[i].key, true) == Some(rs[i])
    decreases |rs|
  {
    var n := |rs| - 1;
    if i < n {
      assert rs[n].key != rs[i].key && rs[..n][..i] == rs[..i];
      ExpectOnly(s, rs[..n], i);
    } else {
      UnmentionedStays(System([], s), rs[..n], rs[n].key, true);
    }
  }
}
