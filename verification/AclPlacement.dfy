/** Placement of planned nodes in the transition array and the record array. */
module AclPlacement {
  import opened Basics
  import opened AclFormat
  import opened AclTrie
  import opened AclRuns
  import opened AclRange
  import opened AclPlan

  /** The allocation cursors, one per kind; match records are in an array of their own. */
  datatype Cursors = Cursors(dfa: nat, quad: nat, single: nat, rec: nat) {
    function At(kind: Kind): nat {
      match kind
      case Dfa => dfa
      case Quad => quad
      case Single => single
      case Match => rec
    }
  }

  /** Array entries that `size` units of a kind take. */
  function Entries(kind: Kind, size: nat): nat { if kind.Dfa? then 64 * size else size }

  /** First entry of each region: 256 no-match entries and the idle node come
      first, record 0 is the no-match record. */
  function Start(plan: Plan, kind: Kind): nat {
    match kind
    case Dfa => DFA_SIZE + 1
    case Quad => DFA_SIZE + 1 + 64 * Space(plan, Dfa)
    case Single => DFA_SIZE + 1 + 64 * Space(plan, Dfa) + Space(plan, Quad)
    case Match => 1
  }

  function End(plan: Plan, kind: Kind): nat {
    Start(plan, kind) + Entries(kind, Space(plan, kind))
  }

  /** Entries of the node in its own array. */
  function Extent(p: NodePlan): nat { Entries(p.kind, Weight(Some(p), p.kind)) }

  type Index = seq<Option<Transition>>

  /** What the upper half of the node's transition must say. */
  ghost predicate LanesOk(node: Node, p: NodePlan, lanes: Lanes) {
    match p.kind
    case Dfa =>
      && |p.group| == 4
      && forall i :: 0 <= i < 4 ==> p.group[i] <= i && p.group[i] < p.size && lanes.At(i) == 64 * (i - p.group[i])
    case Quad => Bounds(AllBreaks(Deciders(node.ptrs)), [lanes.l0, lanes.l1, lanes.l2, lanes.l3])
    case Single => lanes == TOP_LANES
    case Match => lanes == NO_LANES
  }

  ghost predicate PlacedAt(node: Node, plan: Plan, p: NodePlan, t: Transition, cursors: Cursors) {
    && t.kind == p.kind
    && LanesOk(node, p, t.lanes)
    && Start(plan, p.kind) <= t.addr
    && t.addr + Extent(p) <= cursors.At(p.kind)
  }

  /** The part of the plan that has been placed. */
  function Generated(plan: Plan, index: Index): (g: Plan)
    requires |plan| == |index|
    ensures |g| == |plan|
    ensures forall n :: 0 <= n < |plan| ==> g[n] == if index[n].Some? then plan[n] else None
  {
    seq(|plan|, n requires 0 <= n < |plan| => if index[n].Some? then plan[n] else None)
  }

  ghost predicate Apart(plan: Plan, index: Index)
    requires |plan| == |index|
  {
    forall n, m :: 0 <= n < |plan| && 0 <= m < |plan| && n != m ==>
      ClearOf(plan[n], index[n], plan[m], index[m])
  }

  ghost predicate ClearOf(p: Option<NodePlan>, t: Option<Transition>, q: Option<NodePlan>, u: Option<Transition>) {
    p.Some? && t.Some? && q.Some? && u.Some? && t.value.kind == u.value.kind ==>
      || t.value.addr + Extent(p.value) <= u.value.addr
      || u.value.addr + Extent(q.value) <= t.value.addr
  }

  ghost predicate Placement(pool: Pool, plan: Plan, index: Index, cursors: Cursors) {
    && |plan| == |index| == |pool|
    && (forall n :: 0 <= n < |plan| && index[n].Some? ==>
          plan[n].Some? && PlacedAt(pool[n], plan, plan[n].value, index[n].value, cursors))
    && Apart(plan, index)
    && (forall kind :: cursors.At(kind) == Start(plan, kind) + Entries(kind, Space(Generated(plan, index), kind)))
  }

  /** A region never overflows: what is still to be placed fits behind the cursor. */
  lemma RoomLeft(pool: Pool, plan: Plan, index: Index, cursors: Cursors, n: nat)
    requires Placement(pool, plan, index, cursors)
    requires n < |plan| && plan[n].Some? && index[n].None?
    ensures cursors.At(plan[n].value.kind) + Extent(plan[n].value) <= End(plan, plan[n].value.kind)
  {
    RoomFor(Generated(plan, index), plan, n);
  }

  function Bump(cursors: Cursors, kind: Kind, amount: nat): Cursors {
    match kind
    case Dfa => cursors.(dfa := cursors.dfa + amount)
    case Quad => cursors.(quad := cursors.quad + amount)
    case Single => cursors.(single := cursors.single + amount)
    case Match => cursors.(rec := cursors.rec + amount)
  }

  /** Placing a node at its cursor keeps the placement invariant. */
  lemma Place(pool: Pool, plan: Plan, index: Index, cursors: Cursors, n: nat, lanes: Lanes)
    requires Placement(pool, plan, index, cursors)
    requires n < |plan| && plan[n].Some? && index[n].None?
    requires LanesOk(pool[n], plan[n].value, lanes)
    ensures var p := plan[n].value;
            Placement(pool, plan, index[n := Some(Transition(lanes, p.kind, cursors.At(p.kind)))],
                      Bump(cursors, p.kind, Extent(p)))
  {
    var p := plan[n].value;
    var index' := index[n := Some(Transition(lanes, p.kind, cursors.At(p.kind)))];
    assert Generated(plan, index') == Generated(plan, index)[n := plan[n]];
    SpaceAdd(Generated(plan, index), n, p);
    forall m | 0 <= m < |plan| && m != n && index[m].Some?
      ensures PlacedAt(pool[m], plan, plan[m].value, index[m].value, Bump(cursors, p.kind, Extent(p)))
    {
    }
  }

  /** A placed node lies inside its kind's region. */
  lemma Occupies(pool: Pool, plan: Plan, index: Index, cursors: Cursors, n: nat)
    requires Placement(pool, plan, index, cursors)
    requires n < |plan| && index[n].Some?
    ensures index[n].value.kind == plan[n].value.kind
    ensures Start(plan, plan[n].value.kind) <= index[n].value.addr
    ensures index[n].value.addr + Extent(plan[n].value) <= End(plan, plan[n].value.kind)
  {
    var kind := plan[n].value.kind;
    assert PlacedAt(pool[n], plan, plan[n].value, index[n].value, cursors);
    TotalPart(Generated(plan, index), plan, kind, |plan|);
    assert cursors.At(kind) <= End(plan, kind);
  }

  /** Two placed nodes, match nodes apart, share no transition. */
  lemma Separate(pool: Pool, plan: Plan, index: Index, cursors: Cursors, n: nat, m: nat)
    requires Placement(pool, plan, index, cursors)
    requires n < |plan| && m < |plan| && n != m && index[n].Some? && index[m].Some?
    requires !plan[n].value.kind.Match? && !plan[m].value.kind.Match?
    ensures || index[n].value.addr + Extent(plan[n].value) <= index[m].value.addr
            || index[m].value.addr + Extent(plan[m].value) <= index[n].value.addr
  {
    Occupies(pool, plan, index, cursors, n);
    Occupies(pool, plan, index, cursors, m);
    assert ClearOf(plan[n], index[n], plan[m], index[m]);
  }

  ghost predicate SizesOk(plan: Plan) {
    forall n :: 0 <= n < |plan| && plan[n].Some? ==> plan[n].value.kind.Match? || plan[n].value.size >= 1
  }

  /** Distinct nodes get distinct transitions, and none gets the no-match one. */
  lemma DistinctIndexes(pool: Pool, plan: Plan, index: Index, cursors: Cursors, n: nat, m: nat)
    requires Placement(pool, plan, index, cursors) && SizesOk(plan)
    requires n < |plan| && m < |plan| && index[n].Some? && index[m].Some?
    ensures n != m ==> index[n].value != index[m].value
    ensures index[n].value != NO_MATCH
  {
    assert Extent(plan[n].value) >= 1 && Extent(plan[m].value) >= 1;
    assert n != m ==> ClearOf(plan[n], index[n], plan[m], index[m]);
  }

  /** Once everything planned is placed, every cursor is at the end of its region. */
  lemma CursorsAtEnd(pool: Pool, plan: Plan, index: Index, cursors: Cursors)
    requires Placement(pool, plan, index, cursors)
    requires forall n :: 0 <= n < |plan| && plan[n].Some? ==> index[n].Some?
    ensures forall kind :: cursors.At(kind) == End(plan, kind)
  {
    assert Generated(plan, index) == plan;
  }
}
