/** The generating pass: places every planned node, then resolves its pointers
    once its children are placed. */
module AclGen {
  import opened Basics
  import opened AclFormat
  import opened AclTrie
  import opened AclRuns
  import opened AclDfa
  import opened AclRange
  import opened AclPlan
  import opened AclPlacement
  import opened AclResolve

  /** Facts about the input that no step of this pass changes. */
  ghost predicate Ready(pool: Pool, roots: seq<nat>, plan: Plan) {
    && WellFormed(pool, roots)
    && |plan| == |pool|
    && AllSuit(pool, roots, plan)
    && Reaches(pool, roots, plan, |roots|)
    && SizesOk(plan)
  }

  lemma SuitsGivesSizes(pool: Pool, roots: seq<nat>, plan: Plan)
    requires |plan| == |pool| && AllSuit(pool, roots, plan) && WellFormed(pool, roots)
    ensures SizesOk(plan)
  {
    forall n | 0 <= n < |plan| && plan[n].Some?
      ensures plan[n].value.kind.Match? || plan[n].value.size >= 1
    {
      assert WellFormedNode(pool[n], |pool|);
      FanoutCountsRuns(pool[n]);
    }
  }

  function RoundUp(x: nat, unit: nat): nat
    requires unit > 0
  {
    (x + unit - 1) / unit * unit
  }

  /** Size of the transition array; the match records follow it. */
  function MatchStart(plan: Plan): nat {
    RoundUp(End(plan, Single) + 1, 2)
  }

  ghost predicate SameOutside<T>(a: seq<T>, b: seq<T>, lo: nat, hi: nat) {
    |a| == |b| && forall i :: 0 <= i < |a| && !(lo <= i < hi) ==> a[i] == b[i]
  }

  ghost predicate LowArea(table: seq<Transition>) {
    && |table| > DFA_SIZE
    && (forall i :: 0 <= i < DFA_SIZE ==> table[i] == NO_MATCH)
    && table[DFA_SIZE] == IDLE
  }

  ghost predicate DoneOk(pool: Pool, plan: Plan, index: Index, table: seq<Transition>, done: set<nat>)
    requires |pool| == |plan| == |index|
  {
    forall n :: n in done ==>
      && n < |index| && index[n].Some? && plan[n].Some?
      && (plan[n].value.kind.Match? || Resolved(pool, plan, index, table, n))
  }

  ghost predicate RecordsOk(pool: Pool, index: Index, records: seq<Record>)
    requires |pool| == |index|
  {
    && |records| > 0 && records[0] == Record(0, 0)
    && forall n :: 0 <= n < |index| && index[n].Some? && index[n].value.kind.Match? ==>
         index[n].value.addr < |records| && records[index[n].value.addr] == pool[n].record
  }

  ghost predicate Extends(index: Index, index': Index) {
    |index| == |index'| && forall n :: 0 <= n < |index| && index[n].Some? ==> index'[n] == index[n]
  }

  lemma ResolvedExtends(pool: Pool, plan: Plan, index: Index, index': Index, table: seq<Transition>, n: nat)
    requires n < |pool| == |plan| == |index| && index[n].Some? && plan[n].Some? && Extends(index, index')
    requires Resolved(pool, plan, index, table, n)
    ensures Resolved(pool, plan, index', table, n)
  {
    forall b: byte
      ensures ChildrenPlaced(pool, index', n) && ReadsTarget(pool, plan, index', table, n, b)
    {
      assert ReadsTarget(pool, plan, index, table, n, b);
    }
  }

  lemma ResolvedFrame(pool: Pool, plan: Plan, index: Index, cursors: Cursors,
                      table: seq<Transition>, table': seq<Transition>, n: nat, m: nat)
    requires Placement(pool, plan, index, cursors) && n < |pool| && m < |pool| && n != m
    requires index[n].Some? && index[m].Some? && !plan[n].value.kind.Match? && !plan[m].value.kind.Match?
    requires SameOutside(table, table', index[m].value.addr, index[m].value.addr + Extent(plan[m].value))
    requires Resolved(pool, plan, index, table, n)
    ensures Resolved(pool, plan, index, table', n)
  {
    Separate(pool, plan, index, cursors, n, m);
    forall b: byte
      ensures ReadsTarget(pool, plan, index, table', n, b)
    {
      assert ReadsTarget(pool, plan, index, table, n, b);
    }
  }

  /** Writing inside the span of a node that is not done keeps the done ones resolved. */
  lemma DoneFrame(pool: Pool, plan: Plan, index: Index, cursors: Cursors,
                  table: seq<Transition>, table': seq<Transition>, done: set<nat>, m: nat)
    requires Placement(pool, plan, index, cursors) && m < |pool| && m !in done
    requires index[m].Some? && !plan[m].value.kind.Match?
    requires SameOutside(table, table', index[m].value.addr, index[m].value.addr + Extent(plan[m].value))
    requires DoneOk(pool, plan, index, table, done)
    ensures DoneOk(pool, plan, index, table', done)
  {
    forall n | n in done && !plan[n].value.kind.Match?
      ensures Resolved(pool, plan, index, table', n)
    {
      ResolvedFrame(pool, plan, index, cursors, table, table', n, m);
    }
  }

  lemma DoneExtends(pool: Pool, plan: Plan, index: Index, index': Index, table: seq<Transition>, done: set<nat>)
    requires |pool| == |plan| == |index| && Extends(index, index')
    requires DoneOk(pool, plan, index, table, done)
    ensures DoneOk(pool, plan, index', table, done)
  {
    forall n | n in done && !plan[n].value.kind.Match?
      ensures Resolved(pool, plan, index', table, n)
    {
      ResolvedExtends(pool, plan, index, index', table, n);
    }
  }

  lemma LowFrame(plan: Plan, kind: Kind, table: seq<Transition>, table': seq<Transition>, lo: nat, hi: nat)
    requires !kind.Match? && LowArea(table) && SameOutside(table, table', lo, hi) && Start(plan, kind) <= lo
    ensures LowArea(table')
  {
  }

  lemma RegionsInTable(plan: Plan, kind: Kind)
    requires !kind.Match?
    ensures DFA_SIZE < Start(plan, kind) && End(plan, kind) < MatchStart(plan)
  {
  }

  // ----- allocating

  /** Packs, for each group, how far its entries were moved down. */
  method DfaLanes(node: Node, p: NodePlan) returns (lanes: Lanes)
    requires p.kind.Dfa? && |p.group| == 4
    requires forall i :: 0 <= i < 4 ==> p.group[i] <= i && p.group[i] < p.size
    ensures LanesOk(node, p, lanes)
  {
    var moved: seq<byte> := [];
    for i := 0 to 4
      invariant |moved| == i && forall j :: 0 <= j < i ==> moved[j] == 64 * (j - p.group[j])
    {
      moved := moved + [64 * (i - p.group[i])];
    }
    lanes := ToLanes(moved);
  }

  method Clear(table: array<Transition>, lo: nat, size: nat)
    requires lo + size <= table.Length
    modifies table
    ensures SameOutside(old(table[..]), table[..], lo, lo + size)
    ensures forall i :: lo <= i < lo + size ==> table[i] == NO_MATCH
  {
    for n := 0 to size
      invariant SameOutside(old(table[..]), table[..], lo, lo + size)
      invariant forall i :: lo <= i < lo + n ==> table[i] == NO_MATCH
    {
      table[lo + n] := NO_MATCH;
    }
  }

  /** The unresolved pass over a range node: fixes the boundaries; the entries
      it leaves behind are pointer numbers, to be overwritten later. */
  method QuadLanes(node: Node, p: NodePlan, table: array<Transition>, lo: nat) returns (lanes: Lanes)
    requires p.kind.Quad? && p.size == Fanout(node) <= QUAD_MAX
    requires Disjoint(node.ptrs) && IsUnion(node.values, node.ptrs)
    requires lo + p.size <= table.Length
    modifies table
    ensures LanesOk(node, p, lanes)
    ensures SameOutside(old(table[..]), table[..], lo, lo + p.size)
  {
    var dfa := FillDfa(node.ptrs, Numbered(node.ptrs), NO_MATCH);
    var numbers := dfa[..];
    NumberedTellsApart(node.ptrs);
    RunsAreFanout(node, Numbered(node.ptrs), numbers);
    var bounds := FillRanges(numbers, table, lo);
    lanes := ToLanes(bounds);
    assert [lanes.l0, lanes.l1, lanes.l2, lanes.l3] == bounds;
  }

  /** First writing of a node that has transitions, before its children are placed. */
  method WriteInitial(node: Node, p: NodePlan, ghost forced: bool, ghost size: nat, table: array<Transition>, at: nat)
    returns (lanes: Lanes)
    requires WellFormedNode(node, size) && Suits(node, forced, p) && !p.kind.Match?
    requires at + Extent(p) <= table.Length
    modifies table
    ensures LanesOk(node, p, lanes)
    ensures SameOutside(old(table[..]), table[..], at, at + Extent(p))
    ensures p.kind.Single? ==> table[at] == NO_MATCH
  {
    match p.kind {
      case Dfa =>
        lanes := DfaLanes(node, p);
        Clear(table, at, Extent(p));
      case Single =>
        lanes := TOP_LANES;
        table[at] := NO_MATCH;
      case Quad =>
        lanes := QuadLanes(node, p, table, at);
    }
  }

  lemma RecordsAdded(pool: Pool, plan: Plan, index: Index, cursors: Cursors, records: seq<Record>, n: nat,
      t: Transition)
    requires Placement(pool, plan, index, cursors) && RecordsOk(pool, index, records)
    requires n < |pool| && t.kind.Match? && t.addr == cursors.rec < |records| && index[n].None?
    ensures RecordsOk(pool, index[n := Some(t)], records[t.addr := pool[n].record])
  {
    forall m | 0 <= m < |index| && index[m].Some? && index[m].value.kind.Match?
      ensures index[m].value.addr < t.addr
    {
      assert PlacedAt(pool[m], plan, plan[m].value, index[m].value, cursors);
    }
    assert cursors.At(Match) >= 1;
  }

  // ----- resolving

  ghost predicate CanResolve(pool: Pool, plan: Plan, index: Index, cursors: Cursors, table: seq<Transition>, n: nat) {
    && Placement(pool, plan, index, cursors) && SizesOk(plan)
    && n < |pool| && index[n].Some? && WellFormedNode(pool[n], |pool|) && ChildrenPlaced(pool, index, n)
    && index[n].value.addr + Extent(plan[n].value) <= |table|
  }

  lemma ResolvedIfReads(pool: Pool, plan: Plan, index: Index, cursors: Cursors, table: seq<Transition>, n: nat,
                        dfa: seq<Transition>)
    requires CanResolve(pool, plan, index, cursors, table, n) && |dfa| == 256
    requires forall b: byte :: dfa[b] == Entry(pool[n].ptrs, Names(pool[n].ptrs, index), NO_MATCH, b)
    requires forall b: byte ::
      var a := StepAddr(index[n].value, b);
      index[n].value.addr <= a < index[n].value.addr + Extent(plan[n].value) && table[a] == dfa[b]
    ensures Resolved(pool, plan, index, table, n)
  {
    forall b: byte
      ensures ReadsTarget(pool, plan, index, table, n, b)
    {
      EntryIsTarget(pool, index, n, b);
    }
  }

  method ResolveDfa(pool: Pool, plan: Plan, index: Index, ghost cursors: Cursors, table: array<Transition>, n: nat,
      forced: bool)
    requires CanResolve(pool, plan, index, cursors, table[..], n)
    requires plan[n].value.kind.Dfa? && Suits(pool[n], forced, plan[n].value)
    modifies table
    ensures SameOutside(old(table[..]), table[..], index[n].value.addr, index[n].value.addr + Extent(plan[n].value))
    ensures Resolved(pool, plan, index, table[..], n)
  {
    var node, p, t := pool[n], plan[n].value, index[n].value;
    var full := FillDfa(node.ptrs, Names(node.ptrs, index), NO_MATCH);
    var dfa := full[..];
    assert PlacedAt(node, plan, p, t, cursors);
    DfaGroupsAgree(node, forced, p, Names(node.ptrs, index), dfa);
    FillGroups(p.group, p.size, dfa, table, t.addr);
    forall b: byte
      ensures StepAddr(t, b) == t.addr + AclDfa.Place(p.group, b) < t.addr + Extent(p)
    {
      DfaAddress(node, p, t, b);
    }
    ResolvedIfReads(pool, plan, index, cursors, table[..], n, dfa);
  }

  lemma DfaGroupsAgree(node: Node, forced: bool, p: NodePlan, names: seq<Transition>, dfa: seq<Transition>)
    requires p.kind.Dfa? && Suits(node, forced, p) && |names| == |node.ptrs| && |dfa| == 256
    requires forall b: byte :: dfa[b] == Entry(node.ptrs, names, NO_MATCH, b)
    ensures forall i, j :: 0 <= i < 4 && 0 <= j < 4 && p.group[i] == p.group[j] ==> SameGroup(dfa, i, j)
  {
    forall i: nat, j: nat | i < 4 && j < 4 && p.group[i] == p.group[j]
      ensures SameGroup(dfa, i, j)
    {
      if forced {
        assert i == j;
      } else {
        var unresolved :| IsUnresolved(node.ptrs, unresolved) && Numbers(unresolved, p.group, p.size, 4);
        SharedGroupsAgree(node.ptrs, names, unresolved, dfa, i, j);
      }
    }
  }

  lemma QuadReads(node: Node, p: NodePlan, t: Transition, table: seq<Transition>, dfa: seq<Transition>, b: byte)
    requires p.kind.Quad? && t.kind.Quad? && LanesOk(node, p, t.lanes) && |dfa| == 256
    requires AllBreaks(Signed(dfa)) == AllBreaks(Deciders(node.ptrs)) && |AllHeads(Signed(dfa))| == p.size
    requires t.addr + p.size <= |table| && table[t.addr..t.addr + p.size] == AllHeads(Signed(dfa))
    ensures t.addr <= StepAddr(t, b) < t.addr + Extent(p) && table[StepAddr(t, b)] == dfa[b]
  {
    var g := Signed(dfa);
    RangeReads(node, p, t, g, b);
    assert table[StepAddr(t, b)] == table[t.addr..t.addr + p.size][StepAddr(t, b) - t.addr];
  }

  lemma QuadResolved(pool: Pool, plan: Plan, index: Index, cursors: Cursors, table: seq<Transition>, n: nat,
                     dfa: seq<Transition>)
    requires CanResolve(pool, plan, index, cursors, table, n) && |dfa| == 256 && plan[n].value.kind.Quad?
    requires forall b: byte :: dfa[b] == Entry(pool[n].ptrs, Names(pool[n].ptrs, index), NO_MATCH, b)
    requires AllBreaks(Signed(dfa)) == AllBreaks(Deciders(pool[n].ptrs))
    requires |AllHeads(Signed(dfa))| == plan[n].value.size
    requires table[index[n].value.addr..index[n].value.addr + plan[n].value.size] == AllHeads(Signed(dfa))
    ensures Resolved(pool, plan, index, table, n)
  {
    assert PlacedAt(pool[n], plan, plan[n].value, index[n].value, cursors);
    forall b: byte
      ensures index[n].value.addr <= StepAddr(index[n].value, b) < index[n].value.addr + Extent(plan[n].value)
      ensures table[StepAddr(index[n].value, b)] == dfa[b]
    {
      QuadReads(pool[n], plan[n].value, index[n].value, table, dfa, b);
    }
    ResolvedIfReads(pool, plan, index, cursors, table, n, dfa);
  }

  method ResolveQuad(pool: Pool, plan: Plan, index: Index, ghost cursors: Cursors, table: array<Transition>, n: nat)
    requires CanResolve(pool, plan, index, cursors, table[..], n)
    requires plan[n].value.kind.Quad? && plan[n].value.size == Fanout(pool[n]) <= QUAD_MAX
    modifies table
    ensures SameOutside(old(table[..]), table[..], index[n].value.addr, index[n].value.addr + Extent(plan[n].value))
    ensures Resolved(pool, plan, index, table[..], n)
  {
    var node, t, size := pool[n], index[n].value, plan[n].value.size;
    var full := FillDfa(node.ptrs, Names(node.ptrs, index), NO_MATCH);
    var dfa := full[..];
    NamesTellApart(pool, plan, index, cursors, n);
    RunsAreFanout(node, Names(node.ptrs, index), dfa);
    var _ := FillRanges(dfa, table, t.addr);
    assert table[..][t.addr..t.addr + size] == table[t.addr..t.addr + size];
    QuadResolved(pool, plan, index, cursors, table[..], n, dfa);
  }

  method ResolveSingle(pool: Pool, plan: Plan, index: Index, ghost cursors: Cursors, table: array<Transition>, n: nat)
    requires CanResolve(pool, plan, index, cursors, table[..], n)
    requires plan[n].value.kind.Single? && Fanout(pool[n]) == 1
    requires table[index[n].value.addr] == NO_MATCH
    modifies table
    ensures SameOutside(old(table[..]), table[..], index[n].value.addr, index[n].value.addr + Extent(plan[n].value))
    ensures Resolved(pool, plan, index, table[..], n)
  {
    var ptrs, t := pool[n].ptrs, index[n].value;
    assert PlacedAt(pool[n], plan, plan[n].value, t, cursors);
    for x := 0 to |ptrs|
      invariant SameOutside(old(table[..]), table[..], t.addr, t.addr + 1)
      invariant table[t.addr] == LastName(ptrs[..x], index)
    {
      assert ptrs[..x + 1][..x] == ptrs[..x];
      if ptrs[x].child.Some? {
        table[t.addr] := index[ptrs[x].child.value].value;
      }
    }
    assert ptrs[..|ptrs|] == ptrs;
    forall b: byte
      ensures ReadsTarget(pool, plan, index, table[..], n, b)
    {
      SingleAddress(t, b);
      OneDecider(pool[n], |pool|, b);
      LastIsTarget(pool, index, n, b);
    }
  }

  /** The transition of the last non-NULL child. */
  function LastName(ptrs: seq<Ptr>, index: Index): Transition {
    if ptrs == [] then NO_MATCH
    else if ptrs[|ptrs| - 1].child.Some? then NameOf(ptrs[|ptrs| - 1], index)
    else LastName(ptrs[..|ptrs| - 1], index)
  }

  lemma {:induction false} LastNameIs(ptrs: seq<Ptr>, index: Index, x: int)
    requires -1 <= x < |ptrs| && forall y :: 0 <= y < |ptrs| ==> (ptrs[y].child.Some? <==> y == x)
    ensures LastName(ptrs, index) == if x < 0 then NO_MATCH else NameOf(ptrs[x], index)
  {
    if |ptrs| > 0 && x < |ptrs| - 1 {
      LastNameIs(ptrs[..|ptrs| - 1], index, x);
    }
  }

  lemma LastIsTarget(pool: Pool, index: Index, n: nat, b: byte)
    requires n < |pool| && ChildrenPlaced(pool, index, n)
    requires forall y :: 0 <= y < |pool[n].ptrs| && pool[n].ptrs[y].child.Some? ==> y == PtrFor(pool[n].ptrs, b)
    ensures LastName(pool[n].ptrs, index) == Target(pool, index, n, b)
  {
    var ptrs := pool[n].ptrs;
    assert PtrFor(ptrs, b) >= 0 ==> Takes(ptrs[PtrFor(ptrs, b)], b);
    LastNameIs(ptrs, index, PtrFor(ptrs, b));
  }
}
