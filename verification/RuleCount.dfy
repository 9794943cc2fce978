/** How far a batch of additions gets, counted on the table before the call. */
module RuleCount {
  import opened Basics
  import opened RuleTable
  import opened RuleBatch

  /** The positions that can still take a rule. */
  ghost function FreePositions<K(!new)>(s: Slots<K>): set<int> { set i | 1 <= i < |s| && s[i].None? }

  /** The keys that the requests mention and the table lacks. */
  ghost function NewKeys<K(!new)>(s: Slots<K>, rs: seq<Rule<K>>): set<K>
    requires s != []
  {
    set i | 0 <= i < |rs| && Lookup(s, rs[i].key).None? :: rs[i].key
  }

  /** There is a free position for every new key. */
  ghost predicate Fits<K(!new)>(s: Slots<K>, rs: seq<Rule<K>>)
    requires s != []
  {
    |NewKeys(s, rs)| <= |FreePositions(s)|
  }

  /** Some new key's first request has a negative priority. */
  ghost predicate NewNegative<K(!new)>(s: Slots<K>, rs: seq<Rule<K>>)
    requires s != []
  {
    exists i :: 0 <= i < |rs| && rs[i].priority < 0 && IsNew(s, rs[..i], rs[i].key)
  }

  // ----- how the counts move

  lemma NewKeysNext<K(!new)>(s: Slots<K>, rs: seq<Rule<K>>, r: Rule<K>)
    requires s != []
    ensures NewKeys(s, rs + [r]) == NewKeys(s, rs) + (if Lookup(s, r.key).None? then {r.key} else {})
    ensures IsNew(s, rs, r.key) <==> Lookup(s, r.key).None? && r.key !in NewKeys(s, rs)
  {
    var rs' := rs + [r];
    assert forall i :: 0 <= i < |rs| ==> rs'[i] == rs[i];
    forall k | k in NewKeys(s, rs) ensures k in NewKeys(s, rs') {
      var i :| 0 <= i < |rs| && Lookup(s, rs[i].key).None? && rs[i].key == k;
      assert rs'[i].key == k;
    }
    if Lookup(s, r.key).None? {
      assert rs'[|rs|].key == r.key;
    }
  }

  lemma FreeTaken<K(!new)>(s: Slots<K>, i: nat, r: Rule<K>)
    requires 1 <= i < |s|
    ensures FreePositions(s[i := Some(r)]) == FreePositions(s) - {i}
  {
  }

  lemma {:induction false} FitsPrefix<K(!new)>(s: Slots<K>, rs: seq<Rule<K>>, n: nat)
    requires s != [] && n <= |rs| && Fits(s, rs)
    ensures Fits(s, rs[..n])
    decreases |rs|
  {
    if n == |rs| {
      assert rs[..n] == rs;
    } else {
      var m := |rs| - 1;
      assert rs == rs[..m] + [rs[m]] && rs[..m][..n] == rs[..n];
      NewKeysNext(s, rs[..m], rs[m]);
      assert |NewKeys(s, rs[..m])| <= |NewKeys(s, rs)| by {
        Smaller(NewKeys(s, rs[..m]), NewKeys(s, rs));
      }
      FitsPrefix(s, rs[..m], n);
    }
  }

  lemma {:induction false} Smaller<K(!new)>(a: set<K>, b: set<K>)
    requires a <= b
    ensures |a| <= |b|
  {
    assert b == a + (b - a);
  }

  // ----- the fill stops where the counts say

  /** One more request for a key already found takes no position. */
  lemma CountsFound<K(!new)>(s: Slots<K>, rs: seq<Rule<K>>, slots: Slots<K>, r: Rule<K>, i: nat)
    requires s != [] && HoldsKey(slots, i, r.key) && 1 <= i && !IsNew(s, rs, r.key)
    ensures FreePositions(SetPort(slots, i, r.port)) == FreePositions(slots)
    ensures NewKeys(s, rs + [r]) == NewKeys(s, rs)
  {
    NewKeysNext(s, rs, r);
    FreeTaken(slots, i, slots[i].value.(port := r.port));
  }

  /** One more request for a new key takes one. */
  lemma CountsNew<K(!new)>(s: Slots<K>, rs: seq<Rule<K>>, slots: Slots<K>, r: Rule<K>, i: nat)
    requires s != [] && 1 <= i < |slots| && slots[i].None? && IsNew(s, rs, r.key)
    ensures |FreePositions(slots[i := Some(r)])| == |FreePositions(slots)| - 1
    ensures |NewKeys(s, rs + [r])| == |NewKeys(s, rs)| + 1
  {
    NewKeysNext(s, rs, r);
    assert i in FreePositions(slots);
    FreeTaken(slots, i, r);
  }

  /** The counts before a request decide whether it finds room. */
  lemma FillCounts<K(!new)>(s: Slots<K>, rs: seq<Rule<K>>, f: Filled<K>, r: Rule<K>)
    requires s != [] && Placed(s, rs, f) && |FreePositions(f.slots)| + |NewKeys(s, rs)| == |FreePositions(s)|
    ensures var g := FillOne(f, r);
      && (g.full <==> !Fits(s, rs + [r]))
      && (!g.full ==> |FreePositions(g.slots)| + |NewKeys(s, rs + [r])| == |FreePositions(s)|)
  {
    ExpectSome(s, rs, r.key);
    assert Lookup(f.slots, r.key) == Expect(s, rs, r.key, true);
    match Find(f.slots, r.key)
    case Some(i) => CountsFound(s, rs, f.slots, r, i);
    case None =>
      match Free(f.slots)
      case None =>
        NewKeysNext(s, rs, r);
        assert FreePositions(f.slots) == {};
      case Some(i) => CountsNew(s, rs, f.slots, r, i);
  }

  /** A batch runs out of room exactly when its new keys outnumber the free positions. */
  lemma {:induction false} FullIffCrowded<K(!new)>(s: Slots<K>, rs: seq<Rule<K>>)
    requires s != [] && Unique(s)
    ensures FillAll(s, rs).full <==> !Fits(s, rs)
    ensures Fits(s, rs) ==> |FreePositions(FillAll(s, rs).slots)| + |NewKeys(s, rs)| == |FreePositions(s)|
    decreases |rs|
  {
    if rs == [] {
      assert NewKeys(s, rs) == {};
    } else {
      var n := |rs| - 1;
      FullIffCrowded(s, rs[..n]);
      assert rs == rs[..n] + [rs[n]];
      if FillAll(s, rs[..n]).full {
        if Fits(s, rs) {
          FitsPrefix(s, rs, n);
        }
      } else {
        FillPlaces(s, rs[..n]);
        FillCounts(s, rs[..n], FillAll(s, rs[..n]), rs[n]);
      }
    }
  }

  lemma {:induction false} FillGrows<K(!new)>(s: Slots<K>, rs: seq<Rule<K>>, n: nat)
    requires s != [] && n <= |rs|
    ensures |FillAll(s, rs[..n]).pos| <= |FillAll(s, rs).pos|
    decreases |rs| - n
  {
    if n == |rs| {
      assert rs[..n] == rs;
    } else {
      assert rs[..n + 1][..n] == rs[..n];
      FillGrows(s, rs, n + 1);
    }
  }

  /** The requests that are placed are the longest prefix that fits. */
  lemma ReachIsLongestFit<K(!new)>(s: Slots<K>, rs: seq<Rule<K>>, n: nat)
    requires s != [] && Unique(s) && n <= |rs|
    ensures n <= |FillAll(s, rs).pos| <==> Fits(s, rs[..n])
  {
    var reach := |FillAll(s, rs).pos|;
    FullIffCrowded(s, rs[..n]);
    if n <= reach {
      FillStops(s, rs);
      FullIffCrowded(s, rs[..reach]);
      FitsPrefix(s, rs[..reach], n);
      assert rs[..reach][..n] == rs[..n];
    } else {
      FillGrows(s, rs, n);
    }
  }

  /** The rebuild refuses a batch exactly when a new key comes with a negative priority. */
  lemma NegativeIffNew<K(!new)>(s: Slots<K>, rs: seq<Rule<K>>)
    requires s != [] && Unique(s) && Fits(s, rs)
    ensures Negative(FillAll(s, rs).pos, rs) <==> NewNegative(s, rs)
  {
    FullIffCrowded(s, rs);
    FillPlaces(s, rs);
  }
}
