/** Listing the rules by priority. */
module RuleListing {
  import opened RuleTable
  import opened RuleList

  /** The rules of one priority, in list order. */
  function OfPriority<K>(l: Rules<K>, p: int): Rules<K> {
    if l == [] then []
    else OfPriority(l[..|l| - 1], p) + (if l[|l| - 1].priority == p then [l[|l| - 1]] else [])
  }

  /** Everything listed for priorities below `p`. */
  function Listed<K>(l: Rules<K>, p: nat): Rules<K> { if p == 0 then [] else Listed(l, p - 1) + OfPriority(l, p - 1) }

  const INT_MAX := 0x7fff_ffff

  /** Every priority is one that the listing's `int` counter passes without overflowing. */
  ghost predicate Listable<K(!new)>(l: Rules<K>) { forall i :: 0 <= i < |l| ==> 0 <= l[i].priority < INT_MAX }

  ghost predicate Sorted<K(!new)>(l: Rules<K>) { forall i, j :: 0 <= i <= j < |l| ==> l[i].priority <= l[j].priority }

  /** How many rules have a priority from 0 up to below `p`. */
  function Below<K>(l: Rules<K>, p: int): (n: nat)
    ensures n <= |l|
  {
    if l == [] then 0 else Below(l[..|l| - 1], p) + (if 0 <= l[|l| - 1].priority < p then 1 else 0)
  }

  lemma {:induction false} OfPriorityIs<K(!new)>(l: Rules<K>, p: int)
    ensures forall i :: 0 <= i < |OfPriority(l, p)| ==> OfPriority(l, p)[i].priority == p
    ensures p >= 0 ==> Below(l, p + 1) == Below(l, p) + |OfPriority(l, p)|
    decreases |l|
  {
    if l != [] {
      OfPriorityIs(l[..|l| - 1], p);
    }
  }

  lemma {:induction false} BelowZero<K(!new)>(l: Rules<K>)
    ensures Below(l, 0) == 0
    decreases |l|
  {
    if l != [] {
      BelowZero(l[..|l| - 1]);
    }
  }

  lemma SortedAppend<K(!new)>(a: Rules<K>, b: Rules<K>, p: nat)
    requires Sorted(a) && forall i :: 0 <= i < |a| ==> 0 <= a[i].priority < p
    requires forall i :: 0 <= i < |b| ==> b[i].priority == p
    ensures Sorted(a + b) && forall i :: 0 <= i < |a + b| ==> 0 <= (a + b)[i].priority < p + 1
  {
  }

  /** What is listed so far is sorted and counts exactly the rules below the bound. */
  lemma {:induction false} ListedSorted<K(!new)>(l: Rules<K>, p: nat)
    ensures Sorted(Listed(l, p)) && |Listed(l, p)| == Below(l, p)
    ensures forall i :: 0 <= i < |Listed(l, p)| ==> 0 <= Listed(l, p)[i].priority < p
    decreases p
  {
    if p == 0 {
      BelowZero(l);
    } else {
      ListedSorted(l, p - 1);
      OfPriorityIs(l, p - 1);
      SortedAppend(Listed(l, p - 1), OfPriority(l, p - 1), p - 1);
    }
  }

  // ----- every rule once

  /** How often a rule occurs. */
  ghost function Count<K(!new)>(l: Rules<K>, r: Rule<K>): nat {
    if l == [] then 0 else Count(l[..|l| - 1], r) + (if l[|l| - 1] == r then 1 else 0)
  }

  lemma {:induction false} CountIsMultiset<K(!new)>(l: Rules<K>, r: Rule<K>)
    ensures multiset(l)[r] == Count(l, r)
    decreases |l|
  {
    if l != [] {
      var n := |l| - 1;
      CountIsMultiset(l[..n], r);
      assert l == l[..n] + [l[n]];
    }
  }

  lemma {:induction false} CountAppend<K(!new)>(a: Rules<K>, b: Rules<K>, r: Rule<K>)
    ensures Count(a + b, r) == Count(a, r) + Count(b, r)
    decreases |b|
  {
    if b == [] {
      assert a + b == a;
    } else {
      var n := |b| - 1;
      CountAppend(a, b[..n], r);
      assert (a + b)[..|a + b| - 1] == a + b[..n];
    }
  }

  lemma {:induction false} OfPriorityCounts<K(!new)>(l: Rules<K>, p: int, r: Rule<K>)
    ensures Count(OfPriority(l, p), r) == if r.priority == p then Count(l, r) else 0
    decreases |l|
  {
    if l != [] {
      var n := |l| - 1;
      OfPriorityCounts(l[..n], p, r);
      CountAppend(OfPriority(l[..n], p), if l[n].priority == p then [l[n]] else [], r);
    }
  }

  lemma {:induction false} ListedCounts<K(!new)>(l: Rules<K>, p: nat, r: Rule<K>)
    ensures Count(Listed(l, p), r) == if 0 <= r.priority < p then Count(l, r) else 0
    decreases p
  {
    if p != 0 {
      ListedCounts(l, p - 1, r);
      OfPriorityCounts(l, p - 1, r);
      CountAppend(Listed(l, p - 1), OfPriority(l, p - 1), r);
    }
  }

  lemma {:induction false} BelowAll<K(!new)>(l: Rules<K>, p: int)
    ensures Below(l, p) == |l| <==> forall i :: 0 <= i < |l| ==> 0 <= l[i].priority < p
    decreases |l|
  {
    if l != [] {
      var n := |l| - 1;
      BelowAll(l[..n], p);
      assert forall i :: 0 <= i < n ==> l[..n][i] == l[i];
    }
  }

  /** Once as many rules are listed as there are, the listing is a permutation of the rules. */
  lemma ListedAll<K(!new)>(l: Rules<K>, p: nat)
    requires Below(l, p) == |l|
    ensures multiset(Listed(l, p)) == multiset(l)
  {
    BelowAll(l, p);
    forall r: Rule<K> ensures multiset(Listed(l, p))[r] == multiset(l)[r] {
      ListedCounts(l, p, r);
      CountIsMultiset(l, r);
      CountIsMultiset(Listed(l, p), r);
    }
  }

  // ----- equal priorities in list order

  ghost predicate Before<K(!new)>(out: Rules<K>, r: Rule<K>, r': Rule<K>) {
    exists a, b :: 0 <= a < b < |out| && out[a] == r && out[b] == r'
  }

  /** Where a rule stands among those of its priority: behind those that precede it in the list. */
  lemma {:induction false} OfPriorityAt<K(!new)>(l: Rules<K>, i: nat)
    requires i < |l|
    ensures var p := l[i].priority; var a := |OfPriority(l[..i], p)|;
      a < |OfPriority(l, p)| && OfPriority(l, p)[a] == l[i]
    decreases |l|
  {
    var n := |l| - 1;
    if i < n {
      OfPriorityAt(l[..n], i);
      assert l[..n][..i] == l[..i];
    }
  }

  lemma OfPriorityInOrder<K(!new)>(l: Rules<K>, i: nat, j: nat)
    requires i < j < |l| && l[i].priority == l[j].priority
    ensures Before(OfPriority(l, l[i].priority), l[i], l[j])
  {
    OfPriorityAt(l, i);
    OfPriorityAt(l, j);
    OfPriorityAt(l[..j], i);
    assert l[..j][..i] == l[..i];
  }

  lemma BeforeInSum<K(!new)>(x: Rules<K>, y: Rules<K>, r: Rule<K>, r': Rule<K>)
    requires Before(x, r, r') || Before(y, r, r')
    ensures Before(x + y, r, r')
  {
    if Before(x, r, r') {
      var a, b :| 0 <= a < b < |x| && x[a] == r && x[b] == r';
      assert (x + y)[a] == r && (x + y)[b] == r';
    } else {
      var a, b :| 0 <= a < b < |y| && y[a] == r && y[b] == r';
      assert (x + y)[|x| + a] == r && (x + y)[|x| + b] == r';
    }
  }

  lemma {:induction false} ListedInOrder<K(!new)>(l: Rules<K>, p: nat, i: nat, j: nat)
    requires i < j < |l| && l[i].priority == l[j].priority && 0 <= l[i].priority < p
    ensures Before(Listed(l, p), l[i], l[j])
    decreases p
  {
    if l[i].priority == p - 1 {
      OfPriorityInOrder(l, i, j);
    } else {
      ListedInOrder(l, p - 1, i, j);
    }
    BeforeInSum(Listed(l, p - 1), OfPriority(l, p - 1), l[i], l[j]);
  }

  /** The highest priority value, but at least -1. */
  function Highest<K>(l: Rules<K>): (m: int)
    ensures m >= -1 && forall i :: 0 <= i < |l| ==> l[i].priority <= m
    ensures m == -1 || exists i :: 0 <= i < |l| && l[i].priority == m
  {
    if l == [] then -1
    else var m := Highest(l[..|l| - 1]); if m < l[|l| - 1].priority then l[|l| - 1].priority else m
  }

  /** The loop ends before its counter overflows exactly when no priority is negative or the highest `int`. */
  lemma ListingEnds<K(!new)>(l: Rules<K>)
    ensures (exists p: nat :: p <= INT_MAX && Below(l, p) == |l|) <==> Listable(l)
  {
    if Listable(l) {
      var p := Highest(l) + 1;
      BelowAll(l, p);
      assert Below(l, p) == |l|;
    }
    forall p: nat | p <= INT_MAX && Below(l, p) == |l| ensures Listable(l) {
      BelowAll(l, p);
    }
  }

  /** Every rule once, by priority, equal priorities in list order. */
  ghost predicate IsListing<K(!new)>(l: Rules<K>, out: Rules<K>) {
    && Sorted(out) && multiset(out) == multiset(l)
    && forall i, j :: 0 <= i < j < |l| && l[i].priority == l[j].priority ==> Before(out, l[i], l[j])
  }

  lemma ListedIsListing<K(!new)>(l: Rules<K>, p: nat)
    requires Below(l, p) == |l|
    ensures IsListing(l, Listed(l, p))
  {
    ListedAll(l, p);
    ListedSorted(l, p);
    BelowAll(l, p);
    forall i, j | 0 <= i < j < |l| && l[i].priority == l[j].priority ensures Before(Listed(l, p), l[i], l[j]) {
      ListedInOrder(l, p, i, j);
    }
  }

  /** app_pipeline_firewall_ls: every rule once, lowest priority value first. */
  method Ls<K(!new)>(l: Rules<K>, count: nat) returns (out: Rules<K>)
    requires count == |l| && Listable(l)
    ensures IsListing(l, out)
  {
    var n, priority: int32 := count, 0;
    out := [];
    BelowZero(l);
    while n != 0
      invariant 0 <= priority && out == Listed(l, priority) && n == |l| - Below(l, priority)
      decreases Highest(l) + 1 - priority
    {
      BelowAll(l, priority);
      var pass := OnePass(l, priority);
      OfPriorityIs(l, priority);
      out := out + pass;
      n := n - |pass|;
      priority := priority + 1;
    }
    ListedIsListing(l, priority);
  }

  /** One pass over the list. */
  method OnePass<K(!new)>(l: Rules<K>, priority: int) returns (out: Rules<K>)
    ensures out == OfPriority(l, priority)
  {
    out := [];
    for i := 0 to |l|
      invariant out == OfPriority(l[..i], priority)
    {
      assert l[..i + 1][..i] == l[..i];
      if l[i].priority == priority {
        out := out + [l[i]];
      }
    }
    assert l[..|l|] == l;
  }
}
