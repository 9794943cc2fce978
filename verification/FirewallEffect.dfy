/** What each rule operation does to the two ends, said of lookups alone. */
module FirewallEffect {
  import opened Basics
  import opened RuleTable
  import opened RuleBatch
  import opened RuleCount
  import opened RuleList
  import opened FirewallMirror
  import opened FirewallBulk

  // ----- one rule

  /** Adding a rule to the back end: when it is taken, with which status it is refused, and where it goes. */
  lemma EntryAddEffect<K(!new)>(s: Slots<K>, r: Rule<K>)
    requires s != [] && Unique(s)
    ensures var o := EntryAdd(s, r);
      var present, room := Lookup(s, r.key).Some?, exists i :: 1 <= i < |s| && s[i].None?;
      && o.status == (if r.priority > 0x1fff_ffff then -22
                      else if present then 0
                      else if !room then -28
                      else if r.priority < 0 then -22 else 0)
      && (o.status != 0 ==> o.slots == s && o.found == [false])
      && (o.status == 0 ==> o.found == [present])
  {
  }

  /** A new rule goes to the lowest free position and no other position changes. */
  lemma EntryAddPlaces<K(!new)>(s: Slots<K>, r: Rule<K>, i: nat)
    requires s != [] && Lookup(s, r.key).None? && 0 <= r.priority <= 0x1fff_ffff
    requires 1 <= i < |s| && s[i].None? && forall j :: 1 <= j < i ==> s[j].Some?
    ensures EntryAdd(s, r).slots == s[i := Some(r)]
  {
    assert Free(s) == Some(i);
  }

  /** Adding a rule: it succeeds exactly when the priority is in range and the key is there or, with a
      priority that is not negative, a position is free.  Then the front end has the rule as given, the back end
      has it as given under a new key and with its old priority under an old one, and nothing else changes. */
  lemma AddRuleEffect<K(!new)>(sys: System<K>, r: Rule<K>, accept: bool, k: K)
    requires Mirror(sys)
    ensures var (sys', status) := AddRule(sys, r, accept);
      var was := Lookup(sys.be, r.key);
      var room := exists i :: 1 <= i < |sys.be| && sys.be[i].None?;
      var taken := accept && r.priority <= 0x1fff_ffff && (was.Some? || (r.priority >= 0 && room));
      && status == (if taken then 0 else -1)
      && (!taken ==> sys' == sys)
      && (taken && k != r.key ==> RuleFor(sys'.fe, k) == RuleFor(sys.fe, k) && Lookup(sys'.be, k) == Lookup(sys.be, k))
      && (taken ==> RuleFor(sys'.fe, r.key) == Some(r))
      && (taken ==> Lookup(sys'.be, r.key) == Some(if was.Some? then Rule(r.key, was.value.priority, r.port) else r))
  {
    EntryAddEffect(sys.be, r);
    EntryAddLookup(sys.be, r, k);
    EntryAddLookup(sys.be, r, r.key);
    RuleForPut(sys.fe, r, k);
    RuleForPut(sys.fe, r, r.key);
    assert Agree(RuleFor(sys.fe, r.key), Lookup(sys.be, r.key));
  }

  /** Deleting a rule: an accepted call succeeds, the key is gone on both ends, and nothing else changes. */
  lemma DeleteRuleEffect<K(!new)>(sys: System<K>, key: K, accept: bool, k: K)
    requires Mirror(sys)
    ensures var (sys', status) := DeleteRule(sys, key, accept);
      && status == (if accept then 0 else -1)
      && (!accept ==> sys' == sys)
      && (accept ==> RuleFor(sys'.fe, key).None? && Lookup(sys'.be, key).None?)
      && (k != key ==> RuleFor(sys'.fe, k) == RuleFor(sys.fe, k) && Lookup(sys'.be, k) == Lookup(sys.be, k))
  {
    assert Agree(RuleFor(sys.fe, key), Lookup(sys.be, key));
    RuleForDrop(sys.fe, key, k);
    RuleForDrop(sys.fe, key, key);
    if Find(sys.be, key).Some? {
      LookupClear(sys.be, Find(sys.be, key).value, k);
      LookupClear(sys.be, Find(sys.be, key).value, key);
    }
  }

  // ----- a batch of additions

  /** There is a position for every key that the table lacks. */
  ghost predicate Enough<K(!new)>(s: Slots<K>, rs: seq<Rule<K>>)
    requires s != []
  {
    |set i | 0 <= i < |rs| && Lookup(s, rs[i].key).None? :: rs[i].key| <= |set j | 1 <= j < |s| && s[j].None?|
  }

  /** A batch is taken by both ends exactly when it is accepted and not empty, no priority is too high, every
      new key has a position, and each comes once and with a priority that is not negative. */
  lemma AddBulkStatus<K(!new)>(sys: System<K>, rs: seq<Rule<K>>, accept: bool)
    requires Mirror(sys)
    ensures var (sys', status) := AddBulk(sys, rs, accept);
      && status == (if
          && accept && rs != [] && Enough(sys.be, rs)
          && (forall i :: 0 <= i < |rs| ==> rs[i].priority <= 0x1fff_ffff)
          && (forall i :: 0 <= i < |rs| && Lookup(sys.be, rs[i].key).None? ==> rs[i].priority >= 0)
          && (forall i, j :: 0 <= i < j < |rs| && Lookup(sys.be, rs[j].key).None? ==> rs[i].key != rs[j].key)
        then 0 else -1)
      && (status != 0 ==> sys'.fe == sys.fe)
  {
    AddBulkTaken(sys, rs, accept);
    LandsOnce(sys.be, rs);
  }

  lemma AddBulkTaken<K(!new)>(sys: System<K>, rs: seq<Rule<K>>, accept: bool)
    requires Mirror(sys)
    ensures var (sys', status) := AddBulk(sys, rs, accept);
      && status == (if accept && Lands(sys.be, rs) && !Doubles(sys, rs, accept) then 0 else -1)
      && (status != 0 ==> sys'.fe == sys.fe)
  {
    if accept && Lands(sys.be, rs) {
      if Doubles(sys, rs, accept) {
        DoubledBatch(sys, rs);
      } else {
        SucceededBatch(sys, rs);
      }
    } else if accept && GivesUp(sys.be, rs) {
      GivenUpLookup(sys.be, rs);
    }
  }

  /** The conditions of a batch that mentions no new key twice, one request at a time. */
  lemma LandsOnce<K(!new)>(s: Slots<K>, rs: seq<Rule<K>>)
    requires s != []
    ensures (Lands(s, rs) && forall i :: !Repeats(s, rs, i)) <==>
      && rs != [] && Enough(s, rs)
      && (forall i :: 0 <= i < |rs| ==> rs[i].priority <= 0x1fff_ffff)
      && (forall i :: 0 <= i < |rs| && Lookup(s, rs[i].key).None? ==> rs[i].priority >= 0)
      && (forall i, j :: 0 <= i < j < |rs| && Lookup(s, rs[j].key).None? ==> rs[i].key != rs[j].key)
  {
    assert Fits(s, rs) <==> Enough(s, rs);
    NoRepeats(s, rs);
    if forall i :: !Repeats(s, rs, i) {
      forall i | 0 <= i < |rs| ensures IsNew(s, rs[..i], rs[i].key) <==> Lookup(s, rs[i].key).None? {
        assert !Repeats(s, rs, i);
      }
    }
  }

  lemma NoRepeats<K(!new)>(s: Slots<K>, rs: seq<Rule<K>>)
    requires s != []
    ensures (forall i :: !Repeats(s, rs, i)) <==>
      forall i, j :: 0 <= i < j < |rs| && Lookup(s, rs[j].key).None? ==> rs[i].key != rs[j].key
  {
    forall j | 0 <= j < |rs|
      ensures Unmentioned(rs[..j], rs[j].key) <==> forall i :: 0 <= i < j ==> rs[i].key != rs[j].key
    {
      assert forall i :: 0 <= i < j ==> rs[..j][i] == rs[i];
    }
    if forall i :: !Repeats(s, rs, i) {
      forall i, j | 0 <= i < j < |rs| && Lookup(s, rs[j].key).None? ensures rs[i].key != rs[j].key {
        assert !Repeats(s, rs, j);
      }
    }
  }

  /** After a batch that succeeds, each key has the rule of the last request for it, the back end keeping the
      priority of a key that was there, and a key without a request has what it had. */
  lemma AddBulkEffect<K(!new)>(sys: System<K>, rs: seq<Rule<K>>, accept: bool, k: K)
    requires Mirror(sys) && AddBulk(sys, rs, accept).1 == 0
    ensures var sys', was := AddBulk(sys, rs, accept).0, Lookup(sys.be, k);
      && (forall i :: 0 <= i < |rs| && rs[i].key == k && (forall j :: i < j < |rs| ==> rs[j].key != k) ==>
           && RuleFor(sys'.fe, k) == Some(rs[i])
           && Lookup(sys'.be, k) == Some(if was.Some? then Rule(k, was.value.priority, rs[i].port) else rs[i]))
      && ((forall i :: 0 <= i < |rs| ==> rs[i].key != k) ==>
           RuleFor(sys'.fe, k) == RuleFor(sys.fe, k) && Lookup(sys'.be, k) == was)
  {
    AddBulkTaken(sys, rs, accept);
    SucceededBatch(sys, rs);
    PutAllWrites(sys.fe, rs);
    if Unmentioned(rs, k) {
      UnmentionedStays(sys, rs, k, true);
    } else {
      var i := HasLastMention(rs, k);
      WrittenLast(sys.fe, rs, i);
      if Lookup(sys.be, k).Some? {
        ExpectLast(sys.be, rs, i, true);
      } else {
        assert !Repeats(sys.be, rs, i);
        ExpectOnly(sys.be, rs, i);
      }
    }
  }

  /** The back end's status: no requests or a priority too high, no room, a new key first asked for with a
      negative priority, or success. */
  lemma EntryAddBulkStatus<K(!new)>(s: Slots<K>, rs: seq<Rule<K>>)
    requires s != [] && Unique(s)
    ensures EntryAddBulk(s, rs).status ==
      if rs == [] || (exists i :: 0 <= i < |rs| && rs[i].priority > 0x1fff_ffff) then -22
      else if !Enough(s, rs) then -28
      else if exists i :: 0 <= i < |rs| && rs[i].priority < 0 && IsNew(s, rs[..i], rs[i].key) then -22
      else 0
  {
    assert Fits(s, rs) <==> Enough(s, rs);
    if rs != [] && !TooHigh(rs) {
      FullIffCrowded(s, rs);
      if Fits(s, rs) {
        NegativeIffNew(s, rs);
      }
    }
  }

  /** After a batch that the back end gives up, it has no new key, and an old key has its old rule but for the
      port: that of the last request for it that there was room for, if there is one. */
  lemma GivenUpEffect<K(!new)>(s: Slots<K>, rs: seq<Rule<K>>, k: K)
    requires s != [] && Unique(s) && GivesUp(s, rs)
    ensures var now, was := Lookup(EntryAddBulk(s, rs).slots, k), Lookup(s, k);
      && (was.None? ==> now.None?)
      && (was.Some? && (forall i :: Reached(s, rs, i) ==> rs[i].key != k) ==> now == was)
      && (was.Some? ==> forall i ::
           Reached(s, rs, i) && rs[i].key == k && (forall j :: i < j && Reached(s, rs, j) ==> rs[j].key != k) ==>
             now == Some(Rule(k, was.value.priority, rs[i].port)))
  {
    var done := Done(s, rs);
    GivenUpLookup(s, rs);
    ExpectSome(s, done, k);
    forall i ensures Reached(s, rs, i) <==> 0 <= i < |done| {
      ReachedIsDone(s, rs, i);
    }
    assert forall i :: 0 <= i < |done| ==> done[i] == rs[i];
    if Unmentioned(done, k) {
      UnmentionedStays(System([], s), done, k, false);
    } else if Lookup(s, k).Some? {
      var i := HasLastMention(done, k);
      ExpectLast(s, done, i, false);
    }
  }

  // ----- a batch of deletions

  /** Deleting a batch succeeds exactly when every key is there and none is named twice.  The back end loses
      every key named in any case, the front end only then; no other key changes. */
  lemma DeleteBulkEffect<K(!new)>(sys: System<K>, keys: seq<K>, accept: bool, k: K)
    requires Mirror(sys)
    ensures var (sys', status) := DeleteBulk(sys, keys, accept);
      && status == (if
          && accept && keys != [] && (forall i :: 0 <= i < |keys| ==> Lookup(sys.be, keys[i]).Some?)
          && (forall i, j :: 0 <= i < j < |keys| ==> keys[i] != keys[j])
        then 0 else -1)
      && (!accept ==> sys' == sys)
      && (accept ==> Lookup(sys'.be, k) == if k in keys then None else Lookup(sys.be, k))
      && (status == 0 ==> RuleFor(sys'.fe, k) == if k in keys then None else RuleFor(sys.fe, k))
      && (status != 0 ==> sys'.fe == sys.fe)
  {
    AllFound(sys.be, keys);
    RemoveAllLookup(sys.be, keys);
    DropAllRules(sys.fe, keys);
    assert SomeAbsent(sys.be, keys) <==> !(forall i :: 0 <= i < |keys| ==> Lookup(sys.be, keys[i]).Some?);
  }
}
