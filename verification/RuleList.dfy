/** The front end's rule list. */
module RuleList {
  import opened Basics
  import opened RuleTable

  type Rules<K> = seq<Rule<K>>

  /** app_pipeline_firewall_rule_find. */
  function IndexOf<K(==)>(l: Rules<K>, key: K): (r: Option<nat>)
    ensures r.Some? ==> r.value < |l| && l[r.value].key == key
    ensures r.None? ==> forall i :: 0 <= i < |l| ==> l[i].key != key
    decreases |l|
  {
    if l == [] then None
    else if l[0].key == key then Some(0)
    else match IndexOf(l[1..], key) case None => None case Some(i) => Some(i + 1)
  }

  function RuleFor<K(==)>(l: Rules<K>, key: K): Option<Rule<K>> {
    match IndexOf(l, key) case None => None case Some(i) => Some(l[i])
  }

  ghost predicate Keyed<K(!new)>(l: Rules<K>) { forall i, j :: 0 <= i < j < |l| ==> l[i].key != l[j].key }

  lemma RuleAt<K(!new)>(l: Rules<K>, i: nat)
    requires Keyed(l) && i < |l|
    ensures IndexOf(l, l[i].key) == Some(i) && RuleFor(l, l[i].key) == Some(l[i])
  {
    var r := IndexOf(l, l[i].key);
    assert r.Some? && !(r.value < i) && !(i < r.value);
  }

  lemma NoRule<K(!new)>(l: Rules<K>, k: K)
    requires forall i :: 0 <= i < |l| ==> l[i].key != k
    ensures RuleFor(l, k) == None
  {
  }

  /** Writes a rule under its key: in place, or at the end. */
  function Put<K(==)>(l: Rules<K>, r: Rule<K>): Rules<K> {
    match IndexOf(l, r.key) case Some(i) => l[i := r] case None => l + [r]
  }

  lemma PutKeeps<K(!new)>(l: Rules<K>, r: Rule<K>)
    requires Keyed(l)
    ensures Keyed(Put(l, r)) && |Put(l, r)| == |l| + (if IndexOf(l, r.key).None? then 1 else 0)
  {
  }

  lemma RuleForPut<K(!new)>(l: Rules<K>, r: Rule<K>, k: K)
    requires Keyed(l)
    ensures RuleFor(Put(l, r), k) == if k == r.key then Some(r) else RuleFor(l, k)
  {
    PutKeeps(l, r);
    var l' := Put(l, r);
    if k == r.key {
      RuleAt(l', match IndexOf(l, r.key) case Some(i) => i case None => |l|);
    } else {
      match IndexOf(l, k)
      case None => NoRule(l', k);
      case Some(i) => RuleAt(l', i);
    }
  }

  /** Takes out the rule of a key. */
  function Drop<K(==)>(l: Rules<K>, key: K): Rules<K> {
    match IndexOf(l, key) case Some(i) => l[..i] + l[i + 1..] case None => l
  }

  lemma DropKeeps<K(!new)>(l: Rules<K>, key: K)
    requires Keyed(l)
    ensures Keyed(Drop(l, key)) && |Drop(l, key)| == |l| - (if IndexOf(l, key).Some? then 1 else 0)
  {
  }

  lemma RuleForDrop<K(!new)>(l: Rules<K>, key: K, k: K)
    requires Keyed(l)
    ensures RuleFor(Drop(l, key), k) == if k == key then None else RuleFor(l, k)
  {
    DropKeeps(l, key);
    var l' := Drop(l, key);
    match IndexOf(l, key)
    case None =>
    case Some(d) =>
      if k == key {
        forall i | 0 <= i < |l'| ensures l'[i].key != k { assert l'[i] == if i < d then l[i] else l[i + 1]; }
        NoRule(l', k);
      } else {
        match IndexOf(l, k)
        case None =>
          forall i | 0 <= i < |l'| ensures l'[i].key != k { assert l'[i] == if i < d then l[i] else l[i + 1]; }
          NoRule(l', k);
        case Some(i) => RuleAt(l', if i < d then i else i - 1);
      }
  }

  /** Writing under one key does not move the rules of others. */
  lemma PutIndex<K(!new)>(l: Rules<K>, r: Rule<K>, k: K)
    requires Keyed(l) && k != r.key
    ensures IndexOf(Put(l, r), k) == IndexOf(l, k)
  {
    PutKeeps(l, r);
    var l' := Put(l, r);
    match IndexOf(l, k)
    case None => NoRule(l', k);
    case Some(i) => RuleAt(l', i);
  }
}
