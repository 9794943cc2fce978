/** The counting pass: decides the kind and size of every node reachable from
    the roots and adds up the space each kind needs. */
module AclPlan {
  import opened Basics
  import opened AclFormat
  import opened AclTrie
  import opened AclRuns
  import opened AclDfa

  /** Kind, fanout (runs or distinct groups) and group placement of a node. */
  datatype NodePlan = NodePlan(kind: Kind, size: nat, group: seq<nat>)

  type Plan = seq<Option<NodePlan>>

  /** In the unresolved pass pointer `x` is written as the bare number `x`. */
  function Number(x: nat): Transition { Transition(NO_LANES, Dfa, x) }

  function Numbered(ptrs: seq<Ptr>): (names: seq<Transition>)
    ensures |names| == |ptrs| && forall x :: 0 <= x < |ptrs| ==> names[x] == Number(x)
  {
    seq(|ptrs|, x requires 0 <= x < |ptrs| => Number(x))
  }

  ghost predicate IsUnresolved(ptrs: seq<Ptr>, dfa: seq<Transition>) {
    |dfa| == 256 && forall b: byte :: dfa[b] == Entry(ptrs, Numbered(ptrs), NO_MATCH, b)
  }

  /** The plan that the counting pass must choose for a node. */
  ghost predicate Suits(node: Node, forced: bool, p: NodePlan) {
    if node.isMatch || node.ptrs == [] then p.kind == Match
    else if forced then p == NodePlan(Dfa, 4, [0, 1, 2, 3])
    else if Fanout(node) == 1 then p.kind == Single && p.size == 1
    else if Fanout(node) <= QUAD_MAX then p.kind == Quad && p.size == Fanout(node)
    else p.kind == Dfa && |p.group| == 4 && 1 <= p.size <= 4 &&
         exists dfa :: IsUnresolved(node.ptrs, dfa) && Numbers(dfa, p.group, p.size, 4)
  }

  // ----- space accounting

  function Weight(p: Option<NodePlan>, kind: Kind): nat {
    if p.None? || p.value.kind != kind then 0
    else if kind.Dfa? || kind.Quad? then p.value.size
    else 1
  }

  function Total(plan: Plan, kind: Kind, k: nat): nat
    requires k <= |plan|
  {
    if k == 0 then 0 else Total(plan, kind, k - 1) + Weight(plan[k - 1], kind)
  }

  function Space(plan: Plan, kind: Kind): nat { Total(plan, kind, |plan|) }

  lemma {:induction false} TotalAdd(plan: Plan, n: nat, p: NodePlan, kind: Kind, k: nat)
    requires n < |plan| && plan[n].None? && k <= |plan|
    ensures Total(plan[n := Some(p)], kind, k)
         == Total(plan, kind, k) + (if n < k then Weight(Some(p), kind) else 0)
  {
    if k > 0 {
      TotalAdd(plan, n, p, kind, k - 1);
    }
  }

  lemma SpaceAdd(plan: Plan, n: nat, p: NodePlan)
    requires n < |plan| && plan[n].None?
    ensures forall kind :: Space(plan[n := Some(p)], kind) == Space(plan, kind) + Weight(Some(p), kind)
  {
    forall kind {
      TotalAdd(plan, n, p, kind, |plan|);
    }
  }

  /** `a` is part of `b`: it leaves some entries of `b` out. */
  ghost predicate Part(a: Plan, b: Plan) {
    |a| == |b| && forall n :: 0 <= n < |a| ==> a[n].None? || a[n] == b[n]
  }

  lemma {:induction false} TotalPart(a: Plan, b: Plan, kind: Kind, k: nat)
    requires Part(a, b) && k <= |a|
    ensures Total(a, kind, k) <= Total(b, kind, k)
  {
    if k > 0 {
      TotalPart(a, b, kind, k - 1);
    }
  }

  /** What is left out of a part still fits. */
  lemma RoomFor(a: Plan, b: Plan, n: nat)
    requires Part(a, b) && n < |a| && a[n].None? && b[n].Some?
    ensures forall kind :: Space(a, kind) + Weight(b[n], kind) <= Space(b, kind)
  {
    SpaceAdd(a, n, b[n].value);
    forall kind {
      TotalPart(a[n := b[n]], b, kind, |a|);
    }
  }

  // ----- reachability

  ghost predicate EdgeClosed(pool: Pool, s: set<nat>) {
    forall n, x :: n in s && n < |pool| && 0 <= x < |pool[n].ptrs| && pool[n].ptrs[x].child.Some? ==>
      pool[n].ptrs[x].child.value in s
  }

  ghost predicate ChildrenPlanned(pool: Pool, plan: Plan, n: nat)
    requires n < |pool|
  {
    forall x :: 0 <= x < |pool[n].ptrs| && pool[n].ptrs[x].child.Some? ==>
      pool[n].ptrs[x].child.value < |plan| && plan[pool[n].ptrs[x].child.value].Some?
  }

  ghost predicate NewIn(before: Plan, after: Plan, s: set<nat>)
    requires |before| == |after|
  {
    forall m :: 0 <= m < |after| && before[m].None? && after[m].Some? ==> m in s
  }

  /** `after` extends `before` by nodes whose children are planned too and that
      lie in every edge-closed set that holds `n`. */
  ghost predicate Grown(pool: Pool, n: nat, before: Plan, after: Plan)
    requires |after| == |pool|
  {
    && Part(before, after)
    && (forall m :: 0 <= m < |after| && before[m].None? && after[m].Some? ==> ChildrenPlanned(pool, after, m))
    && (forall s: set<nat> :: EdgeClosed(pool, s) && n in s ==> NewIn(before, after, s))
  }

  lemma GrownThrough(pool: Pool, n: nat, x: nat, decided: Plan, prior: Plan, after: Plan)
    requires |prior| == |after| == |pool| && n < |pool| && x < |pool[n].ptrs|
    requires pool[n].ptrs[x].child.Some?
    requires Grown(pool, n, decided, prior) && Grown(pool, pool[n].ptrs[x].child.value, prior, after)
    ensures Grown(pool, n, decided, after)
  {
    forall m | 0 <= m < |after| && decided[m].None? && after[m].Some?
      ensures ChildrenPlanned(pool, after, m)
    {
      assert prior[m].Some? ==> ChildrenPlanned(pool, prior, m);
    }
    forall s: set<nat> | EdgeClosed(pool, s) && n in s
      ensures NewIn(decided, after, s)
    {
      assert pool[n].ptrs[x].child.value in s;
      assert NewIn(decided, prior, s) && NewIn(prior, after, s);
    }
  }

  lemma GrownBy(pool: Pool, n: nat, before: Plan, p: NodePlan, after: Plan)
    requires |before| == |after| == |pool| && n < |pool| && before[n].None?
    requires Grown(pool, n, before[n := Some(p)], after) && ChildrenPlanned(pool, after, n)
    ensures Grown(pool, n, before, after)
  {
    var decided := before[n := Some(p)];
    assert forall m :: 0 <= m < |before| && m != n ==> decided[m] == before[m];
    forall s: set<nat> | EdgeClosed(pool, s) && n in s
      ensures NewIn(before, after, s)
    {
      assert NewIn(decided, after, s);
    }
  }

  ghost predicate AllSuit(pool: Pool, roots: seq<nat>, plan: Plan)
    requires |plan| == |pool|
  {
    forall m :: 0 <= m < |plan| && plan[m].Some? ==> Suits(pool[m], m in roots, plan[m].value)
  }

  class Counter {
    const pool: Pool
    const roots: seq<nat>
    var plan: Plan
    var groups: nat
    var vectors: nat
    var singles: nat
    var matches: nat

    ghost predicate Valid()
      reads this
    {
      && |plan| == |pool|
      && AllSuit(pool, roots, plan)
      && groups == Space(plan, Dfa)
      && vectors == Space(plan, Quad)
      && singles == Space(plan, Single)
      && matches == Space(plan, Match)
    }

    ghost function Unplanned(): set<nat>
      reads this
    {
      set m | 0 <= m < |plan| && plan[m].None?
    }

    constructor (pool: Pool, roots: seq<nat>)
      ensures this.pool == pool && this.roots == roots
      ensures Valid() && plan == seq(|pool|, _ => None)
    {
      this.pool := pool;
      this.roots := roots;
      plan := seq(|pool|, _ => None);
      groups, vectors, singles, matches := 0, 0, 0, 0;
      new;
      Nothing(plan, |plan|);
    }

    /** Picks the plan of one node and charges the counters for it. */
    method Decide(n: nat, force: bool)
      requires Valid() && n < |pool| && plan[n].None?
      requires WellFormedNode(pool[n], |pool|) && (force <==> n in roots)
      modifies this
      ensures Valid() && plan[n].Some? && plan == old(plan)[n := plan[n]]
    {
      var node := pool[n];
      var p: NodePlan;
      if node.isMatch || node.ptrs == [] {
        matches := matches + 1;
        p := NodePlan(Match, 0, []);
      } else {
        var fanout := CountFanout(node, 0);
        if force {
          p := NodePlan(Dfa, 4, [0, 1, 2, 3]);
          groups := groups + 4;
        } else if fanout == 1 {
          p := NodePlan(Single, fanout, []);
          singles := singles + 1;
        } else if fanout <= QUAD_MAX {
          p := NodePlan(Quad, fanout, []);
          vectors := vectors + fanout;
        } else {
          var dfa := FillDfa(node.ptrs, Numbered(node.ptrs), NO_MATCH);
          assert IsUnresolved(node.ptrs, dfa[..]);
          var group, count := CountGroups(dfa[..]);
          p := NodePlan(Dfa, count, group);
          groups := groups + count;
        }
      }
      SpaceAdd(plan, n, p);
      plan := plan[n := Some(p)];
    }

    /** Counts `n` and everything below it that has not been counted yet. */
    method CountTypes(n: nat, force: bool)
      requires Valid() && WellFormed(pool, roots) && n < |pool| && (force <==> n in roots)
      modifies this
      ensures Valid() && plan[n].Some? && Grown(pool, n, old(plan), plan)
      decreases Unplanned()
    {
      if plan[n].Some? {
        return;
      }
      ghost var before := plan;
      Decide(n, force);
      ghost var decided := plan;
      var ptrs := pool[n].ptrs;
      for x := 0 to |ptrs|
        invariant Valid() && Grown(pool, n, decided, plan)
        invariant forall y :: 0 <= y < x && ptrs[y].child.Some? ==>
          ptrs[y].child.value < |plan| && plan[ptrs[y].child.value].Some?
      {
        if ptrs[x].child.Some? {
          ghost var prior := plan;
          ChildFacts(pool, roots, n, x);
          assert Unplanned() < old(Unplanned()) by {
            assert n !in Unplanned() && n in old(Unplanned());
          }
          CountTypes(ptrs[x].child.value, false);
          GrownThrough(pool, n, x, decided, prior, plan);
        }
      }
      GrownBy(pool, n, before, decided[n].value, plan);
    }
  }

  /** Closed under children, and inside every closed set that holds the roots. */
  ghost predicate Reaches(pool: Pool, roots: seq<nat>, plan: Plan, k: nat)
    requires k <= |roots| && |plan| == |pool|
  {
    && (forall t :: 0 <= t < k ==> roots[t] < |plan| && plan[roots[t]].Some?)
    && (forall m :: 0 <= m < |plan| && plan[m].Some? ==> ChildrenPlanned(pool, plan, m))
    && (forall s: set<nat> :: EdgeClosed(pool, s) && (forall t :: 0 <= t < |roots| ==> roots[t] in s) ==>
          forall m :: 0 <= m < |plan| && plan[m].Some? ==> m in s)
  }

  lemma ReachesMore(pool: Pool, roots: seq<nat>, before: Plan, after: Plan, k: nat)
    requires k < |roots| && |before| == |after| == |pool| && Reaches(pool, roots, before, k)
    requires roots[k] < |pool| && after[roots[k]].Some? && Grown(pool, roots[k], before, after)
    ensures Reaches(pool, roots, after, k + 1)
  {
    forall m | 0 <= m < |after| && after[m].Some?
      ensures ChildrenPlanned(pool, after, m)
    {
      assert before[m].Some? ==> ChildrenPlanned(pool, before, m);
    }
    forall s: set<nat> | EdgeClosed(pool, s) && (forall t :: 0 <= t < |roots| ==> roots[t] in s)
      ensures forall m :: 0 <= m < |after| && after[m].Some? ==> m in s
    {
      assert roots[k] in s;
      assert NewIn(before, after, s);
    }
  }

  /** The whole counting pass: exactly the nodes reachable from the roots are
      planned, each with the plan that suits it. */
  method CountAll(pool: Pool, roots: seq<nat>) returns (counter: Counter)
    requires WellFormed(pool, roots)
    ensures fresh(counter) && counter.pool == pool && counter.roots == roots
    ensures counter.Valid() && Reaches(pool, roots, counter.plan, |roots|)
  {
    counter := new Counter(pool, roots);
    for t := 0 to |roots|
      invariant counter.Valid() && Reaches(pool, roots, counter.plan, t)
    {
      ghost var before := counter.plan;
      counter.CountTypes(roots[t], true);
      ReachesMore(pool, roots, before, counter.plan, t);
    }
  }

  lemma {:induction false} Nothing(plan: Plan, k: nat)
    requires k <= |plan| && forall n :: 0 <= n < |plan| ==> plan[n].None?
    ensures forall kind :: Total(plan, kind, k) == 0
  {
    if k > 0 {
      Nothing(plan, k - 1);
    }
  }

  lemma ChildFacts(pool: Pool, roots: seq<nat>, n: nat, x: nat)
    requires WellFormed(pool, roots) && n < |pool| && x < |pool[n].ptrs| && pool[n].ptrs[x].child.Some?
    ensures pool[n].ptrs[x].child.value < |pool| && pool[n].ptrs[x].child.value !in roots
  {
    assert WellFormedNode(pool[n], |pool|);
  }
}
