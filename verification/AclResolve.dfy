/** What it means for a placed node to be resolved, and why each node kind's
    table contents, read through its transition, give the right child. */
module AclResolve {
  import opened Basics
  import opened AclFormat
  import opened AclTrie
  import opened AclRuns
  import opened AclDfa
  import opened AclRange
  import opened AclPlan
  import opened AclPlacement

  ghost predicate ChildrenPlaced(pool: Pool, index: Index, n: nat)
    requires n < |pool|
  {
    forall x :: 0 <= x < |pool[n].ptrs| && pool[n].ptrs[x].child.Some? ==>
      pool[n].ptrs[x].child.value < |index| && index[pool[n].ptrs[x].child.value].Some?
  }

  /** The transition that byte `b` must lead to from node `n`. */
  function Target(pool: Pool, index: Index, n: nat, b: byte): Transition
    requires n < |pool| && ChildrenPlaced(pool, index, n)
  {
    var next := Next(pool, n, b);
    if next.None? then NO_MATCH else index[next.value].value
  }

  /** Reading the table through the node's transition gives the target of every byte. */
  ghost predicate Resolved(pool: Pool, plan: Plan, index: Index, table: seq<Transition>, n: nat)
    requires n < |pool| && n < |plan| && n < |index| && index[n].Some? && plan[n].Some?
  {
    && ChildrenPlaced(pool, index, n)
    && forall b: byte :: ReadsTarget(pool, plan, index, table, n, b)
  }

  ghost predicate ReadsTarget(pool: Pool, plan: Plan, index: Index, table: seq<Transition>, n: nat, b: byte)
    requires n < |pool| && n < |plan| && n < |index| && index[n].Some? && plan[n].Some?
    requires ChildrenPlaced(pool, index, n)
  {
    var a := StepAddr(index[n].value, b);
    && index[n].value.addr <= a < index[n].value.addr + Extent(plan[n].value)
    && a < |table|
    && table[a] == Target(pool, index, n, b)
  }

  /** In the resolved pass a pointer is written as its child's transition. */
  function Names(ptrs: seq<Ptr>, index: Index): (names: seq<Transition>)
    ensures |names| == |ptrs|
    ensures forall x :: 0 <= x < |ptrs| ==> names[x] == NameOf(ptrs[x], index)
  {
    seq(|ptrs|, x requires 0 <= x < |ptrs| => NameOf(ptrs[x], index))
  }

  function NameOf(p: Ptr, index: Index): Transition {
    if p.child.Some? && p.child.value < |index| && index[p.child.value].Some? then index[p.child.value].value
    else NO_MATCH
  }

  lemma EntryIsTarget(pool: Pool, index: Index, n: nat, b: byte)
    requires n < |pool| && ChildrenPlaced(pool, index, n)
    ensures Entry(pool[n].ptrs, Names(pool[n].ptrs, index), NO_MATCH, b) == Target(pool, index, n, b)
  {
  }

  // ----- equal pointer numbers give equal entries, and conversely

  /** Writing pointers by number tells any two deciders apart. */
  lemma NumbersTellApart(ptrs: seq<Ptr>, b: byte, c: byte)
    ensures Entry(ptrs, Numbered(ptrs), NO_MATCH, b) == Entry(ptrs, Numbered(ptrs), NO_MATCH, c)
       <==> PtrFor(ptrs, b) == PtrFor(ptrs, c)
  {
  }

  ghost predicate TellsApart(ptrs: seq<Ptr>, names: seq<Transition>) {
    && |names| == |ptrs|
    && (forall x :: 0 <= x < |ptrs| && ptrs[x].child.Some? ==> names[x] != NO_MATCH)
    && (forall x, y :: 0 <= x < |ptrs| && 0 <= y < |ptrs| && x != y && ptrs[x].child.Some? && ptrs[y].child.Some? ==>
          names[x] != names[y])
  }

  /** Distinct children have distinct transitions, so resolving loses nothing. */
  lemma NamesTellApart(pool: Pool, plan: Plan, index: Index, cursors: Cursors, n: nat)
    requires Placement(pool, plan, index, cursors) && SizesOk(plan)
    requires n < |pool| && Disjoint(pool[n].ptrs) && ChildrenPlaced(pool, index, n)
    ensures TellsApart(pool[n].ptrs, Names(pool[n].ptrs, index))
  {
    var ptrs := pool[n].ptrs;
    forall x, y | 0 <= x < |ptrs| && 0 <= y < |ptrs| && ptrs[x].child.Some? && ptrs[y].child.Some?
      ensures NameOf(ptrs[x], index) != NO_MATCH
      ensures x != y ==> NameOf(ptrs[x], index) != NameOf(ptrs[y], index)
    {
      assert x != y ==> ptrs[x].child.value != ptrs[y].child.value;
      DistinctIndexes(pool, plan, index, cursors, ptrs[x].child.value, ptrs[y].child.value);
    }
  }

  lemma EntriesTellApart(ptrs: seq<Ptr>, names: seq<Transition>, b: byte, c: byte)
    requires TellsApart(ptrs, names)
    ensures Entry(ptrs, names, NO_MATCH, b) == Entry(ptrs, names, NO_MATCH, c) <==> PtrFor(ptrs, b) == PtrFor(ptrs, c)
  {
    assert PtrFor(ptrs, b) >= 0 ==> Takes(ptrs[PtrFor(ptrs, b)], b);
    assert PtrFor(ptrs, c) >= 0 ==> Takes(ptrs[PtrFor(ptrs, c)], c);
  }

  /** Both passes find the same breaks, namely those of the deciders. */
  lemma SameBreaksInBothPasses(ptrs: seq<Ptr>, names: seq<Transition>, dfa: seq<Transition>)
    requires TellsApart(ptrs, names) && |dfa| == 256
    requires forall b: byte :: dfa[b] == Entry(ptrs, names, NO_MATCH, b)
    ensures AllBreaks(Signed(dfa)) == AllBreaks(Deciders(ptrs))
  {
    var g, h := Signed(dfa), Deciders(ptrs);
    forall i | 1 <= i < 256
      ensures g[i] == g[i - 1] <==> h[i] == h[i - 1]
    {
      EntriesTellApart(ptrs, names, Rank(i), Rank(i - 1));
    }
    SameBreaks(g, h, |g|);
  }

  /** So the entries written for a range node are as many as its counted fanout. */
  lemma RunsAreFanout(node: Node, names: seq<Transition>, dfa: seq<Transition>)
    requires Disjoint(node.ptrs) && IsUnion(node.values, node.ptrs)
    requires TellsApart(node.ptrs, names) && |dfa| == 256
    requires forall b: byte :: dfa[b] == Entry(node.ptrs, names, NO_MATCH, b)
    ensures AllBreaks(Signed(dfa)) == AllBreaks(Deciders(node.ptrs))
    ensures |AllBreaks(Signed(dfa))| + 1 == |AllHeads(Signed(dfa))| == Fanout(node)
  {
    SameBreaksInBothPasses(node.ptrs, names, dfa);
    FanoutCountsRuns(node);
    HeadsEnd(Signed(dfa), |Signed(dfa)|);
  }

  lemma NumberedTellsApart(ptrs: seq<Ptr>)
    ensures TellsApart(ptrs, Numbered(ptrs))
  {
  }

  // ----- lookups

  /** Sharing found on pointer numbers is valid for the resolved entries. */
  lemma SharedGroupsAgree(ptrs: seq<Ptr>, names: seq<Transition>, unresolved: seq<Transition>,
                          dfa: seq<Transition>, i: nat, j: nat)
    requires |names| == |ptrs| && |dfa| == 256 && i < 4 && j < 4
    requires IsUnresolved(ptrs, unresolved) && SameGroup(unresolved, i, j)
    requires forall b: byte :: dfa[b] == Entry(ptrs, names, NO_MATCH, b)
    ensures SameGroup(dfa, i, j)
  {
    forall k | 0 <= k < 64
      ensures InGroup(dfa, i, k) == InGroup(dfa, j, k)
    {
      assert InGroup(unresolved, i, k) == InGroup(unresolved, j, k);
      NumbersTellApart(ptrs, i * 64 + k, j * 64 + k);
    }
  }

  /** index + byte - offset[byte / 64] is the shared place of the byte. */
  lemma DfaAddress(node: Node, p: NodePlan, t: Transition, b: byte)
    requires p.kind.Dfa? && t.kind.Dfa? && LanesOk(node, p, t.lanes)
    ensures StepAddr(t, b) == t.addr + AclDfa.Place(p.group, b)
    ensures AclDfa.Place(p.group, b) < Extent(p)
  {
    var i := b / 64;
    assert t.lanes.At(i) == 64 * (i - p.group[i]);
  }

  /** Boundaries fixed by the unresolved pass find the resolved entry of every byte. */
  lemma RangeReads(node: Node, p: NodePlan, t: Transition, g: seq<Transition>, b: byte)
    requires p.kind.Quad? && t.kind.Quad? && LanesOk(node, p, t.lanes) && |g| == 256
    requires AllBreaks(g) == AllBreaks(Deciders(node.ptrs)) && |AllHeads(g)| == p.size
    ensures t.addr <= StepAddr(t, b) < t.addr + Extent(p)
    ensures AllHeads(g)[StepAddr(t, b) - t.addr] == g[Rank(b)]
  {
    var bounds := [t.lanes.l0, t.lanes.l1, t.lanes.l2, t.lanes.l3];
    RangeLookup(g, bounds, b);
    assert ToLanes(bounds) == t.lanes;
  }

  lemma SingleAddress(t: Transition, b: byte)
    requires t.kind.Single? && t.lanes == TOP_LANES
    ensures StepAddr(t, b) == t.addr
  {
  }

  /** A node of fanout 1 has one decider for all bytes: its only child, or none. */
  lemma OneDecider(node: Node, size: nat, b: byte)
    requires WellFormedNode(node, size) && Fanout(node) == 1
    ensures var x := PtrFor(node.ptrs, b);
            forall y :: 0 <= y < |node.ptrs| && node.ptrs[y].child.Some? ==> y == x
  {
    var g := Deciders(node.ptrs);
    FanoutCountsRuns(node);
    NoBreaks(g, |g|);
    forall y | 0 <= y < |node.ptrs| && node.ptrs[y].child.Some?
      ensures y == PtrFor(node.ptrs, b)
    {
      var c: byte :| c in node.ptrs[y].values;
      TakesIffDecides(node.ptrs, y, c);
      assert g[Rank(c)] == PtrFor(node.ptrs, Rank(Rank(c)));
      assert g[Rank(b)] == PtrFor(node.ptrs, Rank(Rank(b)));
    }
  }

  lemma {:induction false} NoBreaks<T>(g: seq<T>, k: nat)
    requires 1 <= k <= |g| && Breaks(g, k) == []
    ensures forall i :: 0 <= i < k ==> g[i] == g[0]
  {
    if k > 1 {
      NoBreaks(g, k - 1);
    }
  }
}
