/** The back end's rule table: numbered positions, found by key. */
module RuleTable {
  import opened Basics

  type int32 = x: int | -0x8000_0000 <= x < 0x8000_0000

  datatype Rule<K> = Rule(key: K, priority: int32, port: nat)

  const MAX_PRIORITY := 0x1fff_ffff

  type Slots<K> = seq<Option<Rule<K>>>

  predicate HoldsKey<K(==)>(s: Slots<K>, i: nat, key: K) { i < |s| && s[i].Some? && s[i].value.key == key }

  /** The lowest position from `i` on that holds the key, or that is free; position 0 is never used. */
  function FindFrom<K(==)>(s: Slots<K>, key: K, i: nat): (r: Option<nat>)
    requires i <= |s|
    ensures r.Some? ==> i <= r.value < |s| && HoldsKey(s, r.value, key)
    ensures r.Some? ==> forall j :: i <= j < r.value ==> !HoldsKey(s, j, key)
    ensures r.None? ==> forall j :: i <= j < |s| ==> !HoldsKey(s, j, key)
    decreases |s| - i
  {
    if i == |s| then None else if HoldsKey(s, i, key) then Some(i) else FindFrom(s, key, i + 1)
  }

  function FreeFrom<K>(s: Slots<K>, i: nat): (r: Option<nat>)
    requires i <= |s|
    ensures r.Some? ==> i <= r.value < |s| && s[r.value].None? && forall j :: i <= j < r.value ==> s[j].Some?
    ensures r.None? ==> forall j :: i <= j < |s| ==> s[j].Some?
    decreases |s| - i
  {
    if i == |s| then None else if s[i].None? then Some(i) else FreeFrom(s, i + 1)
  }

  function Find<K(==)>(s: Slots<K>, key: K): Option<nat>
    requires s != []
  {
    FindFrom(s, key, 1)
  }

  function Free<K>(s: Slots<K>): Option<nat>
    requires s != []
  {
    FreeFrom(s, 1)
  }

  ghost predicate Unique<K(!new)>(s: Slots<K>) {
    forall i, j :: 1 <= i < |s| && 1 <= j < |s| && s[i].Some? && s[j].Some? && i != j ==>
      s[i].value.key != s[j].value.key
  }

  // ----- what the table answers for a key

  function Lookup<K(==)>(s: Slots<K>, key: K): Option<Rule<K>>
    requires s != []
  {
    match Find(s, key) case None => None case Some(i) => s[i]
  }

  lemma LookupAt<K(!new)>(s: Slots<K>, i: nat)
    requires Unique(s) && 1 <= i < |s| && s[i].Some?
    ensures Find(s, s[i].value.key) == Some(i) && Lookup(s, s[i].value.key) == s[i]
  {
    var j := Find(s, s[i].value.key);
    assert HoldsKey(s, i, s[i].value.key);
  }

  /** Writing a rule under a key not yet there. */
  lemma LookupInsert<K(!new)>(s: Slots<K>, i: nat, r: Rule<K>, key: K)
    requires Unique(s) && 1 <= i < |s| && s[i].None? && Lookup(s, r.key).None?
    ensures var s' := s[i := Some(r)];
      Unique(s') && Lookup(s', key) == if key == r.key then Some(r) else Lookup(s, key)
  {
    var s' := s[i := Some(r)];
    assert forall j :: 1 <= j < |s| && s[j].Some? ==> s[j].value.key != r.key by {
      assert forall j :: 1 <= j < |s| ==> !HoldsKey(s, j, r.key);
      assert forall j :: 1 <= j < |s| ==> (HoldsKey(s, j, r.key) <==> s[j].Some? && s[j].value.key == r.key);
    }
    LookupSame(s, s', i, key);
    if key == r.key {
      LookupAt(s', i);
    }
  }

  /** Replacing the rule of a key. */
  lemma LookupReplace<K(!new)>(s: Slots<K>, i: nat, r: Rule<K>, key: K)
    requires Unique(s) && HoldsKey(s, i, r.key) && 1 <= i
    ensures var s' := s[i := Some(r)];
      Unique(s') && Lookup(s', key) == if key == r.key then Some(r) else Lookup(s, key)
  {
    var s' := s[i := Some(r)];
    LookupSame(s, s', i, key);
    if key == r.key {
      LookupAt(s', i);
    }
  }

  lemma LookupClear<K(!new)>(s: Slots<K>, i: nat, key: K)
    requires Unique(s) && 1 <= i < |s| && s[i].Some?
    ensures var s' := s[i := None];
      Unique(s') && Lookup(s', key) == if key == s[i].value.key then None else Lookup(s, key)
  {
    var s' := s[i := None];
    LookupSame(s, s', i, key);
    if key == s[i].value.key {
      assert forall j :: 1 <= j < |s'| ==> !HoldsKey(s', j, key);
    }
  }

  /** Changing one position does not change what is found for a key it neither held nor holds. */
  lemma LookupSame<K(!new)>(s: Slots<K>, s': Slots<K>, i: nat, key: K)
    requires i < |s| == |s'| && s' == s[i := s'[i]]
    ensures !HoldsKey(s, i, key) && !HoldsKey(s', i, key) && s != [] ==> Lookup(s', key) == Lookup(s, key)
  {
    if !HoldsKey(s, i, key) && !HoldsKey(s', i, key) {
      FindSame(s, s', i, key, 1);
    }
  }

  lemma {:induction false} FindSame<K(!new)>(s: Slots<K>, s': Slots<K>, i: nat, key: K, k: nat)
    requires i < |s| == |s'| && s' == s[i := s'[i]] && !HoldsKey(s, i, key) && !HoldsKey(s', i, key) && k <= |s|
    ensures FindFrom(s', key, k) == FindFrom(s, key, k)
    decreases |s| - k
  {
    if k < |s| {
      FindSame(s, s', i, key, k + 1);
    }
  }
}
