/** When batches keep front end and back end in step, and what every run keeps. */
module FirewallBulk {
  import opened Basics
  import opened RuleTable
  import opened RuleBatch
  import opened RuleCount
  import opened RuleList
  import opened FirewallMirror

  // ----- adding a batch

  /** The back end gives up part way: more new keys than free positions, or a new key of negative priority. */
  ghost predicate GivesUp<K(!new)>(s: Slots<K>, rs: seq<Rule<K>>)
    requires s != []
  {
    rs != [] && !TooHigh(rs) && (!Fits(s, rs) || NewNegative(s, rs))
  }

  /** The request is among those there is room for. */
  ghost predicate Reached<K(!new)>(s: Slots<K>, rs: seq<Rule<K>>, i: int)
    requires s != []
  {
    0 <= i < |rs| && Fits(s, rs[..i + 1])
  }

  /** The last request there is room for that mentions its key asks for another port than the table has. */
  ghost predicate EndsMoved<K(!new)>(s: Slots<K>, rs: seq<Rule<K>>, i: int)
    requires s != []
  {
    Reached(s, rs, i) && Moves(s, rs[i]) && forall j :: i < j && Reached(s, rs, j) ==> rs[j].key != rs[i].key
  }

  /** It gives up after giving an existing key another port. */
  ghost predicate Strands<K(!new)>(sys: System<K>, rs: seq<Rule<K>>, accept: bool)
    requires sys.be != []
  {
    accept && GivesUp(sys.be, rs) && exists i :: EndsMoved(sys.be, rs, i)
  }

  /** The batch succeeds in the back end. */
  ghost predicate Lands<K(!new)>(s: Slots<K>, rs: seq<Rule<K>>)
    requires s != []
  {
    rs != [] && !TooHigh(rs) && Fits(s, rs) && !NewNegative(s, rs)
  }

  /** A request for a new key that an earlier request mentions too. */
  ghost predicate Repeats<K(!new)>(s: Slots<K>, rs: seq<Rule<K>>, i: int)
    requires s != []
  {
    0 <= i < |rs| && Lookup(s, rs[i].key).None? && !Unmentioned(rs[..i], rs[i].key)
  }

  /** The back end takes a batch that mentions a new key twice, and reports the key as found. */
  ghost predicate Doubles<K(!new)>(sys: System<K>, rs: seq<Rule<K>>, accept: bool)
    requires sys.be != []
  {
    accept && Lands(sys.be, rs) && exists i :: Repeats(sys.be, rs, i)
  }

  // ----- a batch that fails

  /** The requests that were placed before the back end gave up. */
  ghost function Done<K(!new)>(s: Slots<K>, rs: seq<Rule<K>>): (done: seq<Rule<K>>)
    requires s != []
    ensures |done| <= |rs| && done == rs[..|done|]
  {
    rs[..|FillAll(s, rs).pos|]
  }

  lemma ReachedIsDone<K(!new)>(s: Slots<K>, rs: seq<Rule<K>>, i: int)
    requires s != [] && Unique(s)
    ensures Reached(s, rs, i) <==> 0 <= i < |Done(s, rs)|
  {
    if 0 <= i < |rs| {
      ReachIsLongestFit(s, rs, i + 1);
    }
  }

  lemma EndsMovedIsLast<K(!new)>(s: Slots<K>, rs: seq<Rule<K>>, i: int)
    requires s != [] && Unique(s)
    ensures EndsMoved(s, rs, i) <==> LastMention(Done(s, rs), i) && Moves(s, Done(s, rs)[i])
  {
    var done := Done(s, rs);
    ReachedIsDone(s, rs, i);
    forall j ensures Reached(s, rs, j) <==> 0 <= j < |done| {
      ReachedIsDone(s, rs, j);
    }
    assert forall j :: 0 <= j < |done| ==> done[j] == rs[j];
  }

  lemma GivenUpLookup<K(!new)>(s: Slots<K>, rs: seq<Rule<K>>)
    requires s != [] && Unique(s) && GivesUp(s, rs)
    ensures var o := EntryAddBulk(s, rs);
      o.status != 0 && Unique(o.slots) && forall k :: Lookup(o.slots, k) == Expect(s, Done(s, rs), k, false)
  {
    FullIffCrowded(s, rs);
    if Fits(s, rs) {
      NegativeIffNew(s, rs);
    }
    FillStops(s, rs);
    FillPlaces(s, Done(s, rs));
  }

  /** Without a key that ends on another port, giving up leaves every lookup as it was. */
  lemma NothingMoved<K(!new)>(s: Slots<K>, rs: seq<Rule<K>>, k: K)
    requires s != [] && forall i :: LastMention(rs, i) ==> !Moves(s, rs[i])
    ensures Expect(s, rs, k, false) == Lookup(s, k)
  {
    ExpectSome(s, rs, k);
    if Unmentioned(rs, k) {
      UnmentionedStays(System([], s), rs, k, false);
    } else if Lookup(s, k).Some? {
      var i := HasLastMention(rs, k);
      ExpectLast(s, rs, i, false);
      assert !Moves(s, rs[i]);
    }
  }

  lemma FailedBatch<K(!new)>(sys: System<K>, rs: seq<Rule<K>>)
    requires Mirror(sys) && GivesUp(sys.be, rs)
    ensures var sys' := AddBulk(sys, rs, true).0;
      && sys'.fe == sys.fe && (Mirror(sys') <==> !Strands(sys, rs, true))
      && (!Strands(sys, rs, true) ==> forall k :: Lookup(sys'.be, k) == Lookup(sys.be, k))
  {
    var sys' := AddBulk(sys, rs, true).0;
    var done := Done(sys.be, rs);
    GivenUpLookup(sys.be, rs);
    if Strands(sys, rs, true) {
      var i :| EndsMoved(sys.be, rs, i);
      EndsMovedIsLast(sys.be, rs, i);
      ExpectLast(sys.be, done, i, false);
      var k := done[i].key;
      assert Agree(RuleFor(sys.fe, k), Lookup(sys.be, k));
      assert !Agree(RuleFor(sys'.fe, k), Lookup(sys'.be, k));
    } else {
      forall i | LastMention(done, i) ensures !Moves(sys.be, done[i]) {
        EndsMovedIsLast(sys.be, rs, i);
      }
      forall k ensures Lookup(sys'.be, k) == Lookup(sys.be, k) && Agree(RuleFor(sys'.fe, k), Lookup(sys'.be, k)) {
        NothingMoved(sys.be, done, k);
        assert Agree(RuleFor(sys.fe, k), Lookup(sys.be, k));
      }
    }
  }

  // ----- a batch that the back end takes

  /** With no new key mentioned twice, committing finds every new rule as its request placed it. */
  lemma SingleNewIdle<K(!new)>(s: Slots<K>, rs: seq<Rule<K>>, f: Filled<K>)
    requires s != [] && Placed(s, rs, f) && forall i :: !Repeats(s, rs, i)
    ensures Commit(f.slots, f.pos, rs, |rs|) == f.slots
  {
    forall i | 0 <= i < |rs| && f.pos[i] != 0 ensures f.slots[f.pos[i]] == Some(rs[i]) {
      assert IsNew(s, rs[..i], rs[i].key) && HoldsKey(f.slots, f.pos[i], rs[i].key);
      forall j | i < j < |rs| ensures rs[j].key != rs[i].key {
        assert !Repeats(s, rs, j) && rs[..j][i] == rs[i];
      }
      ExpectOnly(s, rs, i);
      LookupAt(f.slots, f.pos[i]);
    }
    CommitIdle(f.slots, f.pos, rs, |rs|);
  }

  lemma LandedFill<K(!new)>(s: Slots<K>, rs: seq<Rule<K>>)
    requires s != [] && Unique(s) && Lands(s, rs)
    ensures var f := FillAll(s, rs);
      && Placed(s, rs, f)
      && EntryAddBulk(s, rs) == Outcome(Commit(f.slots, f.pos, rs, |rs|), 0, Flags(f.pos))
  {
    FullIffCrowded(s, rs);
    NegativeIffNew(s, rs);
    FillPlaces(s, rs);
  }

  /** The back end takes a batch exactly when the counts say so, and finds the keys that were there or came before. */
  lemma TakenIffLands<K(!new)>(s: Slots<K>, rs: seq<Rule<K>>)
    requires s != [] && Unique(s)
    ensures var o := EntryAddBulk(s, rs);
      && (o.status == 0 <==> Lands(s, rs))
      && (o.status == 0 ==> forall i :: 0 <= i < |rs| ==> o.found[i] == !IsNew(s, rs[..i], rs[i].key))
  {
    if GivesUp(s, rs) {
      GivenUpLookup(s, rs);
    } else if Lands(s, rs) {
      LandedFill(s, rs);
    }
  }

  lemma SucceededBatch<K(!new)>(sys: System<K>, rs: seq<Rule<K>>)
    requires Mirror(sys) && Lands(sys.be, rs) && !Doubles(sys, rs, true)
    ensures var (sys', status) := AddBulk(sys, rs, true);
      && status == 0 && Mirror(sys') && sys'.fe == PutAll(sys.fe, rs)
      && forall k :: Lookup(sys'.be, k) == Expect(sys.be, rs, k, true)
  {
    var f := FillAll(sys.be, rs);
    LandedFill(sys.be, rs);
    SingleNewIdle(sys.be, rs, f);
    PutAllWrites(sys.fe, rs);
    forall i | 0 <= i < |rs| ensures IndexOf(sys.fe, rs[i].key).Some? == Flags(f.pos)[i] {
      assert Agree(RuleFor(sys.fe, rs[i].key), Lookup(sys.be, rs[i].key));
      assert !Repeats(sys.be, rs, i);
    }
    forall k ensures Agree(RuleFor(PutAll(sys.fe, rs), k), Lookup(f.slots, k)) {
      WrittenAgrees(sys, rs, k);
    }
  }

  /** The front end takes the second mention for a contradiction; the back end keeps the rule. */
  lemma DoubledBatch<K(!new)>(sys: System<K>, rs: seq<Rule<K>>)
    requires Mirror(sys) && Doubles(sys, rs, true)
    ensures var (sys', status) := AddBulk(sys, rs, true);
      status == -1 && sys'.fe == sys.fe && !Mirror(sys')
  {
    var (sys', status) := AddBulk(sys, rs, true);
    var f := FillAll(sys.be, rs);
    LandedFill(sys.be, rs);
    var i :| Repeats(sys.be, rs, i);
    var k := rs[i].key;
    assert Agree(RuleFor(sys.fe, k), Lookup(sys.be, k));
    assert Flags(f.pos)[i] && IndexOf(sys.fe, rs[i].key).None?;
    assert Lookup(sys'.be, k).Some? by {
      ExpectSome(sys.be, rs, k);
      assert Lookup(f.slots, k) == Expect(sys.be, rs, k, true);
      CommitKeepsKeys(f.slots, f.pos, rs, |rs|);
      SameKeysFind(f.slots, sys'.be, k, 1);
    }
    assert !Agree(RuleFor(sys'.fe, k), Lookup(sys'.be, k));
  }

  /** A batch keeps keys and ports in step exactly when it neither strands a changed port nor doubles a new key. */
  lemma AddBulkMirrors<K(!new)>(sys: System<K>, rs: seq<Rule<K>>, accept: bool)
    requires Mirror(sys)
    ensures Mirror(AddBulk(sys, rs, accept).0) <==> !Strands(sys, rs, accept) && !Doubles(sys, rs, accept)
  {
    if accept && rs != [] && !TooHigh(rs) {
      if GivesUp(sys.be, rs) {
        FailedBatch(sys, rs);
      } else if Doubles(sys, rs, accept) {
        DoubledBatch(sys, rs);
      } else {
        SucceededBatch(sys, rs);
      }
    }
  }

  /** The last mention of an existing key has another priority, which only the front end records. */
  ghost predicate BatchReprioritizes<K(!new)>(sys: System<K>, rs: seq<Rule<K>>, accept: bool)
    requires sys.be != []
  {
    accept && Lands(sys.be, rs) && exists i :: LastMention(rs, i) && Reprioritizes(sys, rs[i], true)
  }

  lemma WrittenExact<K(!new)>(sys: System<K>, rs: seq<Rule<K>>, k: K)
    requires Exact(sys) && !TooHigh(rs) && forall i :: !Repeats(sys.be, rs, i)
    requires forall i :: LastMention(rs, i) ==> !Reprioritizes(sys, rs[i], true)
    ensures Written(sys.fe, rs, k) == Expect(sys.be, rs, k, true)
  {
    if Unmentioned(rs, k) {
      UnmentionedStays(sys, rs, k, true);
    } else {
      var i := HasLastMention(rs, k);
      WrittenLast(sys.fe, rs, i);
      assert !Reprioritizes(sys, rs[i], true) && rs[i].priority <= MAX_PRIORITY;
      if Lookup(sys.be, k).Some? {
        ExpectLast(sys.be, rs, i, true);
      } else {
        assert !Repeats(sys.be, rs, i);
        ExpectOnly(sys.be, rs, i);
      }
    }
  }

  lemma ExactMirrors<K(!new)>(sys: System<K>)
    requires Exact(sys)
    ensures Mirror(sys)
  {
  }

  lemma SucceededExact<K(!new)>(sys: System<K>, rs: seq<Rule<K>>)
    requires Exact(sys) && Lands(sys.be, rs) && !Doubles(sys, rs, true)
    ensures Exact(AddBulk(sys, rs, true).0) <==> !BatchReprioritizes(sys, rs, true)
  {
    var sys' := AddBulk(sys, rs, true).0;
    ExactMirrors(sys);
    SucceededBatch(sys, rs);
    PutAllWrites(sys.fe, rs);
    if BatchReprioritizes(sys, rs, true) {
      var i :| LastMention(rs, i) && Reprioritizes(sys, rs[i], true);
      ExpectLast(sys.be, rs, i, true);
      WrittenLast(sys.fe, rs, i);
      assert RuleFor(sys'.fe, rs[i].key) != Lookup(sys'.be, rs[i].key);
    } else {
      forall k ensures RuleFor(sys'.fe, k) == Lookup(sys'.be, k) {
        WrittenExact(sys, rs, k);
      }
    }
  }

  /** Priorities too stay in step exactly when none of the three happens. */
  lemma AddBulkExact<K(!new)>(sys: System<K>, rs: seq<Rule<K>>, accept: bool)
    requires Exact(sys)
    ensures Exact(AddBulk(sys, rs, accept).0) <==>
      !Strands(sys, rs, accept) && !Doubles(sys, rs, accept) && !BatchReprioritizes(sys, rs, accept)
  {
    ExactMirrors(sys);
    AddBulkMirrors(sys, rs, accept);
    var sys' := AddBulk(sys, rs, accept).0;
    if Exact(sys') {
      ExactMirrors(sys');
    }
    if accept && rs != [] && !TooHigh(rs) {
      if GivesUp(sys.be, rs) {
        FailedBatch(sys, rs);
      } else if !Doubles(sys, rs, accept) {
        SucceededExact(sys, rs);
      }
    }
  }

  // ----- deleting a batch

  lemma {:induction false} RemoveAllLookup<K(!new)>(s: Slots<K>, keys: seq<K>)
    requires s != [] && Unique(s)
    ensures Unique(RemoveAll(s, keys))
    ensures forall k :: Lookup(RemoveAll(s, keys), k) == if k in keys then None else Lookup(s, k)
    decreases |keys|
  {
    if keys != [] {
      var n := |keys| - 1;
      RemoveAllLookup(s, keys[..n]);
      var s1 := RemoveAll(s, keys[..n]);
      assert forall k :: k in keys <==> k in keys[..n] || k == keys[n];
      match Find(s1, keys[n])
      case None =>
      case Some(i) =>
        LookupClear(s1, i, keys[n]);
        forall k ensures Lookup(RemoveAll(s, keys), k) == if k in keys then None else Lookup(s, k) {
          LookupClear(s1, i, k);
        }
    }
  }

  lemma {:induction false} DropAllRules<K(!new)>(l: Rules<K>, keys: seq<K>)
    requires Keyed(l)
    ensures Keyed(DropAll(l, keys))
    ensures forall k :: RuleFor(DropAll(l, keys), k) == if k in keys then None else RuleFor(l, k)
    decreases |keys|
  {
    if keys != [] {
      var n := |keys| - 1;
      DropAllRules(l, keys[..n]);
      var l1 := DropAll(l, keys[..n]);
      DropKeeps(l1, keys[n]);
      assert forall k :: k in keys <==> k in keys[..n] || k == keys[n];
      forall k ensures RuleFor(DropAll(l, keys), k) == if k in keys then None else RuleFor(l, k) {
        RuleForDrop(l1, keys[n], k);
      }
    }
  }

  ghost predicate Once<K(!new)>(keys: seq<K>) { forall i, j :: 0 <= i < j < |keys| ==> keys[i] != keys[j] }

  ghost predicate SomePresent<K(!new)>(s: Slots<K>, keys: seq<K>)
    requires s != []
  {
    exists i :: 0 <= i < |keys| && Lookup(s, keys[i]).Some?
  }

  ghost predicate SomeAbsent<K(!new)>(s: Slots<K>, keys: seq<K>)
    requires s != []
  {
    exists i :: 0 <= i < |keys| && Lookup(s, keys[i]).None?
  }

  /** The batch names a key that is there, and also one that is not or one twice. */
  ghost predicate Mixed<K(!new)>(sys: System<K>, keys: seq<K>, accept: bool)
    requires sys.be != []
  {
    accept && SomePresent(sys.be, keys) && (SomeAbsent(sys.be, keys) || !Once(keys))
  }

  /** A key is found when it is there and was not named before. */
  lemma {:induction false} FoundFlag<K(!new)>(s: Slots<K>, keys: seq<K>, i: nat)
    requires s != [] && Unique(s) && i < |keys|
    ensures FoundAll(s, keys)[i] == (Lookup(s, keys[i]).Some? && keys[i] !in keys[..i])
    decreases |keys|
  {
    var n := |keys| - 1;
    if i < n {
      FoundFlag(s, keys[..n], i);
      assert keys[..n][..i] == keys[..i];
    } else {
      RemoveAllLookup(s, keys[..n]);
      assert Lookup(RemoveAll(s, keys[..n]), keys[n]) == if keys[n] in keys[..n] then None else Lookup(s, keys[n]);
    }
  }

  lemma AllFound<K(!new)>(s: Slots<K>, keys: seq<K>)
    requires s != [] && Unique(s)
    ensures false !in FoundAll(s, keys) <==> !SomeAbsent(s, keys) && Once(keys)
  {
    var found := FoundAll(s, keys);
    forall i | 0 <= i < |keys| ensures found[i] == (Lookup(s, keys[i]).Some? && keys[i] !in keys[..i]) {
      FoundFlag(s, keys, i);
    }
    if false !in found {
      forall i, j | 0 <= i < j < |keys| ensures keys[i] != keys[j] {
        assert found[j] && keys[..j][i] == keys[i];
      }
      assert forall i :: 0 <= i < |keys| ==> found[i] && Lookup(s, keys[i]).Some?;
    } else {
      var i :| 0 <= i < |keys| && !found[i];
      if keys[i] in keys[..i] {
        var j :| 0 <= j < i && keys[..i][j] == keys[i];
        assert keys[j] == keys[i];
      }
    }
  }

  lemma MixedBatch<K(!new)>(sys: System<K>, keys: seq<K>)
    requires Mirror(sys) && Mixed(sys, keys, true)
    ensures !Mirror(DeleteBulk(sys, keys, true).0)
  {
    var sys' := DeleteBulk(sys, keys, true).0;
    AllFound(sys.be, keys);
    RemoveAllLookup(sys.be, keys);
    var i :| 0 <= i < |keys| && Lookup(sys.be, keys[i]).Some?;
    assert Agree(RuleFor(sys.fe, keys[i]), Lookup(sys.be, keys[i])) && Lookup(sys'.be, keys[i]).None?;
    assert !Agree(RuleFor(sys'.fe, keys[i]), Lookup(sys'.be, keys[i]));
  }

  lemma PlainBatch<K(!new)>(sys: System<K>, keys: seq<K>)
    requires Mirror(sys) && keys != [] && !Mixed(sys, keys, true)
    ensures Mirror(DeleteBulk(sys, keys, true).0) && (Exact(sys) ==> Exact(DeleteBulk(sys, keys, true).0))
  {
    var sys' := DeleteBulk(sys, keys, true).0;
    AllFound(sys.be, keys);
    RemoveAllLookup(sys.be, keys);
    DropAllRules(sys.fe, keys);
    if false in FoundAll(sys.be, keys) {
      assert forall k :: k in keys ==> Lookup(sys.be, k).None?;
    }
    forall k
      ensures Agree(RuleFor(sys'.fe, k), Lookup(sys'.be, k))
      ensures Exact(sys) ==> RuleFor(sys'.fe, k) == Lookup(sys'.be, k)
    {
      assert Agree(RuleFor(sys.fe, k), Lookup(sys.be, k));
    }
  }

  /** Deleting a batch keeps the two in step exactly when none of its keys is there, or all are and none is repeated. */
  lemma DeleteBulkMirrors<K(!new)>(sys: System<K>, keys: seq<K>, accept: bool)
    requires Mirror(sys)
    ensures Mirror(DeleteBulk(sys, keys, accept).0) <==> !Mixed(sys, keys, accept)
    ensures Exact(sys) ==> (Exact(DeleteBulk(sys, keys, accept).0) <==> !Mixed(sys, keys, accept))
  {
    if accept && keys != [] {
      if Mixed(sys, keys, accept) {
        MixedBatch(sys, keys);
      } else {
        PlainBatch(sys, keys);
      }
    }
  }

  /** If the back end has all the keys, each named once, the front end has rules for them.  Deleting a batch
      takes this for granted: it unlinks those rules without asking whether it found them. */
  ghost predicate Removable<K(!new)>(sys: System<K>, keys: seq<K>)
    requires sys.be != []
  {
    !SomeAbsent(sys.be, keys) && Once(keys) ==> forall i :: 0 <= i < |keys| ==> IndexOf(sys.fe, keys[i]).Some?
  }

  /** While the two ends are in step there is always a rule to unlink. */
  lemma MirrorRemovable<K(!new)>(sys: System<K>, keys: seq<K>)
    requires Mirror(sys)
    ensures Removable(sys, keys)
  {
    assert forall i :: 0 <= i < |keys| ==> Agree(RuleFor(sys.fe, keys[i]), Lookup(sys.be, keys[i]));
  }

  // ----- every run

  datatype Op<K> =
    | Add(rule: Rule<K>, accept: bool)
    | Delete(key: K, accept: bool)
    | AddMany(rules: seq<Rule<K>>, accept: bool)
    | DeleteMany(keys: seq<K>, accept: bool)

  function Do<K(==)>(sys: System<K>, op: Op<K>): System<K>
    requires sys.be != []
  {
    match op
    case Add(rule, accept) => AddRule(sys, rule, accept).0
    case Delete(key, accept) => DeleteRule(sys, key, accept).0
    case AddMany(rules, accept) => AddBulk(sys, rules, accept).0
    case DeleteMany(keys, accept) => DeleteBulk(sys, keys, accept).0
  }

  /** What a caller must avoid, and can tell from the table before the call. */
  ghost predicate Harmless<K(!new)>(sys: System<K>, op: Op<K>)
    requires sys.be != []
  {
    match op
    case Add(rule, accept) => !Reprioritizes(sys, rule, accept)
    case Delete(key, accept) => true
    case AddMany(rules, accept) =>
      !Strands(sys, rules, accept) && !Doubles(sys, rules, accept) && !BatchReprioritizes(sys, rules, accept)
    case DeleteMany(keys, accept) => !Mixed(sys, keys, accept)
  }

  /** One operation keeps the mirror exact if and only if it is harmless. */
  lemma ExactIffHarmless<K(!new)>(sys: System<K>, op: Op<K>)
    requires Exact(sys)
    ensures Exact(Do(sys, op)) <==> Harmless(sys, op)
  {
    ExactMirrors(sys);
    match op
    case Add(rule, accept) => AddRuleExact(sys, rule, accept);
    case Delete(key, accept) => DeleteRuleKeeps(sys, key, accept);
    case AddMany(rules, accept) => AddBulkExact(sys, rules, accept);
    case DeleteMany(keys, accept) => DeleteBulkMirrors(sys, keys, accept);
  }

  ghost predicate Runs<K(!new)>(states: seq<System<K>>, ops: seq<Op<K>>) {
    && |states| == |ops| + 1
    && (forall i :: 0 <= i < |states| ==> states[i].be != [])
    && (forall i :: 0 <= i < |ops| ==> states[i + 1] == Do(states[i], ops[i]))
  }

  /** Over a run, the mirror is exact in every state as long as every operation was harmless. */
  lemma {:induction false} RunsStayExact<K(!new)>(states: seq<System<K>>, ops: seq<Op<K>>, n: nat)
    requires Runs(states, ops) && Exact(states[0]) && n <= |ops|
    requires forall i :: 0 <= i < n ==> Harmless(states[i], ops[i])
    ensures Exact(states[n])
    decreases n
  {
    if n > 0 {
      RunsStayExact(states, ops, n - 1);
      ExactIffHarmless(states[n - 1], ops[n - 1]);
      assert states[n - 1 + 1] == Do(states[n - 1], ops[n - 1]);
    }
  }

  /** No operation, harmless or not, leaves a key with two rules on either side. */
  lemma AllKeepSound<K(!new)>(sys: System<K>, op: Op<K>)
    requires Sound(sys)
    ensures Sound(Do(sys, op))
  {
    match op
    case Add(rule, accept) =>
      EntryAddLookup(sys.be, rule, rule.key);
      PutKeeps(sys.fe, rule);
    case Delete(key, accept) =>
      RemoveAllLookup(sys.be, [key]);
      assert [key][..0] == [] && RemoveAll(sys.be, [key]) == EntryDelete(sys.be, key).slots;
      DropKeeps(sys.fe, key);
    case AddMany(rules, accept) =>
      PutAllWrites(sys.fe, rules);
      AddBulkUnique(sys.be, rules);
    case DeleteMany(keys, accept) =>
      RemoveAllLookup(sys.be, keys);
      DropAllRules(sys.fe, keys);
  }

  lemma AddBulkUnique<K(!new)>(s: Slots<K>, rs: seq<Rule<K>>)
    requires s != [] && Unique(s)
    ensures Unique(EntryAddBulk(s, rs).slots)
  {
    if GivesUp(s, rs) {
      GivenUpLookup(s, rs);
    } else if Lands(s, rs) {
      var f := FillAll(s, rs);
      LandedFill(s, rs);
      CommitKeepsKeys(f.slots, f.pos, rs, |rs|);
    }
  }

  // ----- every way out of step is reachable

  /** Adding a rule twice: both calls succeed, and the back end keeps the first priority. */
  lemma ReAddDiverges<K(!new)>(k: K)
    ensures var empty: System<K> := System([], [None, None]);
      var (one, s1) := AddRule(empty, Rule(k, 5, 0), true);
      var (two, s2) := AddRule(one, Rule(k, -1, 0), true);
      && Exact(empty) && s1 == 0 && s2 == 0
      && two.fe == [Rule(k, -1, 0)] && Lookup(two.be, k) == Some(Rule(k, 5, 0))
  {
    var empty: System<K> := System([], [None, None]);
    assert Free(empty.be) == Some(1);
    var one := AddRule(empty, Rule(k, 5, 0), true).0;
    assert one == System([Rule(k, 5, 0)], [None, Some(Rule(k, 5, 0))]);
    LookupAt(one.be, 1);
    var two := AddRule(one, Rule(k, -1, 0), true).0;
    LookupAt(two.be, 1);
  }

  /** A batch changes a port and then runs out of room: the call fails, and only the back end has the new port. */
  lemma CrowdedAddDiverges<K(!new)>(a: K, b: K)
    requires a != b
    ensures var sys: System<K> := System([Rule(a, 1, 0)], [None, Some(Rule(a, 1, 0))]);
      var (sys', status) := AddBulk(sys, [Rule(a, 1, 7), Rule(b, 1, 0)], true);
      Exact(sys) && status == -1 && sys'.fe == sys.fe && Lookup(sys'.be, a) == Some(Rule(a, 1, 7))
  {
    var s: Slots<K> := [None, Some(Rule(a, 1, 0))];
    var moved: Slots<K> := [None, Some(Rule(a, 1, 7))];
    var rs := [Rule(a, 1, 7), Rule(b, 1, 0)];
    assert Exact(System([Rule(a, 1, 0)], s));
    assert rs[..1] == [rs[0]] && rs[..1][..0] == [];
    LookupAt(s, 1);
    assert FillAll(s, rs[..1]) == Filled(moved, [0], false);
    assert FillAll(s, rs) == Filled(moved, [0], true);
    assert Undo(moved, [0]) == moved;
    LookupAt(moved, 1);
  }

  lemma DoubleFill<K(!new)>(a: K)
    ensures var rs := [Rule(a, 1, 0), Rule(a, 1, 7)];
      FillAll([None, None], rs) == Filled([None, Some(rs[1])], [1, 0], false)
  {
    var s: Slots<K> := [None, None];
    var rs := [Rule(a, 1, 0), Rule(a, 1, 7)];
    var first: Slots<K> := [None, Some(rs[0])];
    assert rs[..1] == [rs[0]] && rs[..1][..0] == [] && Free(s) == Some(1);
    assert FillAll(s, rs[..1]) == Filled(first, [1], false);
    LookupAt(first, 1);
  }

  /** A batch mentions a new key twice: the call fails, and only the back end has the rule. */
  lemma DoubleAddDiverges<K(!new)>(a: K)
    ensures var sys: System<K> := System([], [None, None]);
      var (sys', status) := AddBulk(sys, [Rule(a, 1, 0), Rule(a, 1, 7)], true);
      Exact(sys) && status == -1 && sys'.fe == [] && Lookup(sys'.be, a) == Some(Rule(a, 1, 0))
  {
    var rs := [Rule(a, 1, 0), Rule(a, 1, 7)];
    var first: Slots<K>, second: Slots<K> := [None, Some(rs[0])], [None, Some(rs[1])];
    var sys: System<K> := System([], [None, None]);
    assert Exact(sys);
    DoubleFill(a);
    assert Commit(second, [1, 0], rs, 1) == first && Commit(second, [1, 0], rs, 2) == first;
    assert Flags([1, 0])[1] && IndexOf([], rs[1].key).None?;
    LookupAt(first, 1);
  }

  /** Deleting that key in a batch then has no rule to unlink: the back end finds the key, the front end has none. */
  lemma DoubleAddUnremovable<K(!new)>(a: K)
    ensures var sys: System<K> := System([], [None, None]);
      var after := AddBulk(sys, [Rule(a, 1, 0), Rule(a, 1, 7)], true).0;
      after.be != [] && !Removable(after, [a])
  {
    DoubleAddDiverges(a);
    var sys: System<K> := System([], [None, None]);
    var after := AddBulk(sys, [Rule(a, 1, 0), Rule(a, 1, 7)], true).0;
    assert [a][0] == a && !SomeAbsent(after.be, [a]) && IndexOf(after.fe, [a][0]).None?;
  }

  /** A batch deletes a key that is there and one that is not: the call fails, and only the front end has the rule. */
  lemma MixedDeleteDiverges<K(!new)>(a: K, b: K, c: K)
    requires a != b && b != c && c != a
    ensures var fe := [Rule(a, 1, 0), Rule(b, 2, 0)];
      var sys: System<K> := System(fe, [None, Some(fe[0]), Some(fe[1])]);
      var (sys', status) := DeleteBulk(sys, [a, c], true);
      Exact(sys) && status == -1 && sys'.fe == fe && Lookup(sys'.be, a).None? && Lookup(sys'.be, b) == Some(fe[1])
  {
    var fe := [Rule(a, 1, 0), Rule(b, 2, 0)];
    var s: Slots<K> := [None, Some(fe[0]), Some(fe[1])];
    var sys := System(fe, s);
    LookupAt(s, 1);
    LookupAt(s, 2);
    assert Exact(sys);
    AllFound(s, [a, c]);
    assert [a, c][1] == c && SomeAbsent(s, [a, c]);
    RemoveAllLookup(s, [a, c]);
    assert DeleteBulk(sys, [a, c], true) == (System(fe, RemoveAll(s, [a, c])), -1);
  }
}
