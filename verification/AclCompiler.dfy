/** The table compiler as a whole: count, lay out, generate. */
module AclCompiler {
  import opened Basics
  import opened AclFormat
  import opened AclTrie
  import opened AclPlan
  import opened AclPlacement
  import opened AclResolve
  import opened AclGen

  /** Spans of the nodes placed in `index` hold the same entries in both tables. */
  ghost predicate SpansKept(plan: Plan, index: Index, table: seq<Transition>, table': seq<Transition>)
    requires |plan| == |index|
  {
    && |table| == |table'|
    && forall m, i :: 0 <= m < |index| && InSpan(plan[m], index[m], i) && 0 <= i < |table| ==> table'[i] == table[i]
  }

  ghost predicate InSpan(p: Option<NodePlan>, t: Option<Transition>, i: int) {
    p.Some? && t.Some? && !p.value.kind.Match? && t.value.addr <= i < t.value.addr + Extent(p.value)
  }

  /** Writing inside the span of a node placed later keeps the older spans. */
  lemma OwnSpanOnly(pool: Pool, plan: Plan, before: Index, index: Index, cursors: Cursors,
                    table: seq<Transition>, table': seq<Transition>, n: nat)
    requires Placement(pool, plan, index, cursors) && Extends(before, index)
    requires n < |plan| && before[n].None? && index[n].Some? && !plan[n].value.kind.Match?
    requires SameOutside(table, table', index[n].value.addr, index[n].value.addr + Extent(plan[n].value))
    ensures SpansKept(plan, before, table, table')
  {
    forall m, i | 0 <= m < |before| && InSpan(plan[m], before[m], i) && 0 <= i < |table|
      ensures table'[i] == table[i]
    {
      Separate(pool, plan, index, cursors, m, n);
    }
  }

  lemma SpansKeptTrans(plan: Plan, before: Index, index: Index,
                       a: seq<Transition>, b: seq<Transition>, c: seq<Transition>)
    requires |plan| == |before| && Extends(before, index)
    requires SpansKept(plan, before, a, b) && SpansKept(plan, index, b, c)
    ensures SpansKept(plan, before, a, c)
  {
    forall m, i | 0 <= m < |before| && InSpan(plan[m], before[m], i) && 0 <= i < |a|
      ensures c[i] == a[i]
    {
      assert InSpan(plan[m], index[m], i);
    }
  }

  /** The state that later steps build on. */
  datatype Stage = Stage(index: Index, done: set<nat>, table: seq<Transition>)

  /** `b` has grown from `a`: nodes placed since are done, older spans are as they were. */
  ghost predicate Grows(plan: Plan, a: Stage, b: Stage) {
    && |a.index| == |plan|
    && Extends(a.index, b.index)
    && a.done <= b.done
    && (forall m :: m in b.done && m !in a.done ==> m < |plan| && a.index[m].None?)
    && (forall m :: 0 <= m < |plan| && b.index[m].Some? && a.index[m].None? ==> m in b.done)
    && SpansKept(plan, a.index, a.table, b.table)
  }

  lemma GrowsTrans(plan: Plan, a: Stage, b: Stage, c: Stage)
    requires Grows(plan, a, b) && Grows(plan, b, c)
    ensures Grows(plan, a, c)
  {
    SpansKeptTrans(plan, a.index, b.index, a.table, b.table, c.table);
  }

  /** Allocating `n`, growing, then resolving `n` is a growth. */
  lemma GrowsAround(plan: Plan, a: Stage, alloc: Stage, mid: Stage, b: Stage, n: nat)
    requires |a.index| == |alloc.index| == |plan| && n < |plan| && a.index[n].None? && alloc.index[n].Some?
    requires n !in a.done && alloc.done == a.done && alloc.index == a.index[n := alloc.index[n]]
    requires SpansKept(plan, a.index, a.table, alloc.table) && Grows(plan, alloc, mid)
    requires b.index == mid.index && b.done == mid.done + {n} && SpansKept(plan, a.index, mid.table, b.table)
    ensures Grows(plan, a, b)
  {
    SpansKeptTrans(plan, a.index, alloc.index, a.table, alloc.table, mid.table);
    SpansKeptTrans(plan, a.index, a.index, a.table, mid.table, b.table);
  }

  /** A word of freshly zeroed memory. */
  const ZEROED := Transition(NO_LANES, Dfa, 0)

  ghost predicate RootsPlaced(roots: seq<nat>, index: Index, k: nat)
    requires k <= |roots|
  {
    forall t :: 0 <= t < k ==> roots[t] < |index| && index[roots[t]].Some?
  }

  lemma RootsStayPlaced(roots: seq<nat>, before: Index, index: Index, k: nat)
    requires k < |roots| && RootsPlaced(roots, before, k) && Extends(before, index)
    requires roots[k] < |index| && index[roots[k]].Some?
    ensures RootsPlaced(roots, index, k + 1)
  {
  }

  lemma RootPlanned(pool: Pool, roots: seq<nat>, plan: Plan, t: nat)
    requires Ready(pool, roots, plan) && t < |roots|
    ensures roots[t] < |pool| && plan[roots[t]].Some?
  {
  }

  class Generator {
    const pool: Pool
    const roots: seq<nat>
    const plan: Plan
    const table: array<Transition>
    const records: array<Record>
    var index: Index
    var cursors: Cursors
    ghost var done: set<nat>

    ghost predicate Valid()
      reads this, table, records
    {
      && Ready(pool, roots, plan)
      && Placement(pool, plan, index, cursors)
      && table.Length == MatchStart(plan)
      && records.Length == End(plan, Match)
      && LowArea(table[..])
      && DoneOk(pool, plan, index, table[..], done)
      && RecordsOk(pool, index, records[..])
    }

    ghost function Unplaced(): set<nat>
      reads this
    {
      set m | 0 <= m < |index| && index[m].None?
    }

    /** The fixed part: no-match entries, the idle node that points to itself,
        the no-match record. */
    constructor (pool: Pool, roots: seq<nat>, plan: Plan)
      requires Ready(pool, roots, plan)
      ensures Valid() && fresh(table) && fresh(records)
      ensures this.pool == pool && this.roots == roots && this.plan == plan
      ensures index == seq(|pool|, _ => None) && done == {}
    {
      this.pool, this.roots, this.plan := pool, roots, plan;
      table := new Transition[MatchStart(plan)](i => ZEROED);
      records := new Record[End(plan, Match)](i => Record(0, 0));
      index := seq(|pool|, _ => None);
      cursors := Cursors(Start(plan, Dfa), Start(plan, Quad), Start(plan, Single), Start(plan, Match));
      done := {};
      new;
      table[DFA_SIZE] := IDLE;
      Clear(table, 0, DFA_SIZE);
      Nothing(Generated(plan, index), |plan|);
    }

    /** Reserves the node's space and fixes its transition. */
    method Allocate(n: nat)
      requires Valid() && n < |pool| && plan[n].Some? && index[n].None?
      modifies this`index, this`cursors, table, records
      ensures Valid() && index[n].Some? && index == old(index)[n := index[n]]
      ensures SpansKept(plan, old(index), old(table[..]), table[..])
      ensures plan[n].value.kind.Single? ==>
        index[n].value.addr < table.Length && table[index[n].value.addr] == NO_MATCH
    {
      assert WellFormedNode(pool[n], |pool|) && Suits(pool[n], n in roots, plan[n].value);
      RoomLeft(pool, plan, index, cursors, n);
      if plan[n].value.kind.Match? {
        AllocateRecord(n);
      } else {
        AllocateSpan(n);
      }
    }

    method AllocateRecord(n: nat)
      requires Valid() && n < |pool| && plan[n].Some? && index[n].None? && plan[n].value.kind.Match?
      requires cursors.rec < records.Length
      modifies this`index, this`cursors, records
      ensures Valid() && index[n].Some? && index == old(index)[n := index[n]]
    {
      ghost var before := index;
      var t := Transition(NO_LANES, Match, cursors.rec);
      RecordsAdded(pool, plan, index, cursors, records[..], n, t);
      Place(pool, plan, index, cursors, n, NO_LANES);
      records[cursors.rec] := pool[n].record;
      index := index[n := Some(t)];
      cursors := Bump(cursors, Match, 1);
      DoneExtends(pool, plan, before, index, table[..], done);
    }

    method AllocateSpan(n: nat)
      requires Valid() && n < |pool| && plan[n].Some? && index[n].None? && !plan[n].value.kind.Match?
      requires WellFormedNode(pool[n], |pool|) && Suits(pool[n], n in roots, plan[n].value)
      requires cursors.At(plan[n].value.kind) + Extent(plan[n].value) <= End(plan, plan[n].value.kind)
      modifies this`index, this`cursors, table
      ensures Valid() && index[n].Some? && index == old(index)[n := index[n]]
      ensures SpansKept(plan, old(index), old(table[..]), table[..])
      ensures plan[n].value.kind.Single? ==>
        index[n].value.addr < table.Length && table[index[n].value.addr] == NO_MATCH
    {
      ghost var before, low := index, table[..];
      var p := plan[n].value;
      var at := cursors.At(p.kind);
      RegionsInTable(plan, p.kind);
      var lanes := WriteInitial(pool[n], p, n in roots, |pool|, table, at);
      Place(pool, plan, index, cursors, n, lanes);
      index := index[n := Some(Transition(lanes, p.kind, at))];
      cursors := Bump(cursors, p.kind, Extent(p));
      DoneExtends(pool, plan, before, index, low, done);
      LowFrame(plan, p.kind, low, table[..], at, at + Extent(p));
      DoneFrame(pool, plan, index, cursors, low, table[..], done, n);
      OwnSpanOnly(pool, plan, before, index, cursors, low, table[..], n);
    }
 
    /** Writes the node's transitions, now that every child has its own. */
    method ResolveSpan(n: nat)
      requires Valid() && n < |pool| && index[n].Some? && n !in done && ChildrenPlaced(pool, index, n)
      requires !plan[n].value.kind.Match?
      requires plan[n].value.kind.Single? ==>
        index[n].value.addr < table.Length && table[index[n].value.addr] == NO_MATCH
      modifies this`done, table
      ensures Valid() && done == old(done) + {n}
      ensures SameOutside(old(table[..]), table[..], index[n].value.addr, index[n].value.addr + Extent(plan[n].value))
    {
      ghost var low := table[..];
      WriteFinal(n);
      LowFrame(plan, plan[n].value.kind, low, table[..], index[n].value.addr,
        index[n].value.addr + Extent(plan[n].value));
      DoneFrame(pool, plan, index, cursors, low, table[..], done, n);
      done := done + {n};
    }

    method WriteFinal(n: nat)
      requires Ready(pool, roots, plan) && Placement(pool, plan, index, cursors) && table.Length == MatchStart(plan)
      requires n < |pool| && index[n].Some? && ChildrenPlaced(pool, index, n) && !plan[n].value.kind.Match?
      requires plan[n].value.kind.Single? ==>
        index[n].value.addr < table.Length && table[index[n].value.addr] == NO_MATCH
      modifies table
      ensures SameOutside(old(table[..]), table[..], index[n].value.addr, index[n].value.addr + Extent(plan[n].value))
      ensures Start(plan, plan[n].value.kind) <= index[n].value.addr
      ensures Resolved(pool, plan, index, table[..], n)
    {
      assert WellFormedNode(pool[n], |pool|) && Suits(pool[n], n in roots, plan[n].value);
      Occupies(pool, plan, index, cursors, n);
      RegionsInTable(plan, plan[n].value.kind);
      match plan[n].value.kind {
        case Dfa => ResolveDfa(pool, plan, index, cursors, table, n, n in roots);
        case Quad => ResolveQuad(pool, plan, index, cursors, table, n);
        case Single => ResolveSingle(pool, plan, index, cursors, table, n);
      }
    }

    method Resolve(n: nat, ghost before: Index)
      requires Valid() && n < |pool| && index[n].Some? && n !in done && ChildrenPlaced(pool, index, n)
      requires Extends(before, index) && before[n].None?
      requires plan[n].value.kind.Single? ==>
        index[n].value.addr < table.Length && table[index[n].value.addr] == NO_MATCH
      modifies this`done, table
      ensures Valid() && done == old(done) + {n}
      ensures SpansKept(plan, before, old(table[..]), table[..])
    {
      if plan[n].value.kind.Match? {
        done := done + {n};
      } else {
        ghost var low := table[..];
        ResolveSpan(n);
        OwnSpanOnly(pool, plan, before, index, cursors, low, table[..], n);
      }
    }

    ghost function Now(): Stage
      reads this, table
    {
      Stage(index, done, table[..])
    }

    /** Places the node and everything below it, then resolves it. */
    method GenNode(n: nat)
      requires Valid() && n < |pool| && plan[n].Some?
      modifies this`index, this`cursors, this`done, table, records
      ensures Valid() && index[n].Some? && Grows(plan, old(Now()), Now())
      decreases Unplaced(), 0
    {
      if index[n].Some? {
        return;
      }
      ghost var start := Now();
      assert n !in done;
      Allocate(n);
      ghost var alloc := Now();
      assert Unplaced() < old(Unplaced()) by {
        assert n !in Unplaced() && n in old(Unplaced());
      }
      GenChildren(n);
      ghost var mid := Now();
      assert plan[n].value.kind.Single? ==> InSpan(plan[n], alloc.index[n], alloc.index[n].value.addr);
      Resolve(n, start.index);
      GrowsAround(plan, start, alloc, mid, Now(), n);
    }

    method GenChildren(n: nat)
      requires Valid() && n < |pool| && plan[n].Some? && index[n].Some?
      modifies this`index, this`cursors, this`done, table, records
      ensures Valid() && ChildrenPlaced(pool, index, n) && Grows(plan, old(Now()), Now())
      decreases Unplaced(), 1
    {
      ghost var start := Now();
      var ptrs := pool[n].ptrs;
      assert ChildrenPlanned(pool, plan, n);
      for x := 0 to |ptrs|
        invariant Valid() && Grows(plan, start, Now())
        invariant forall y :: 0 <= y < x && ptrs[y].child.Some? ==>
          ptrs[y].child.value < |index| && index[ptrs[y].child.value].Some?
      {
        if ptrs[x].child.Some? {
          ghost var prior := Now();
          assert Unplaced() <= old(Unplaced());
          GenNode(ptrs[x].child.value);
          GrowsTrans(plan, start, prior, Now());
        }
      }
    }
 
    method GenRoots()
      requires Valid()
      modifies this`index, this`cursors, this`done, table, records
      ensures Valid() && Grows(plan, old(Now()), Now())
      ensures RootsPlaced(roots, index, |roots|)
    {
      ghost var start := Now();
      for t := 0 to |roots|
        invariant Valid() && Grows(plan, start, Now())
        invariant RootsPlaced(roots, index, t)
      {
        ghost var prior := Now();
        RootPlanned(pool, roots, plan, t);
        GenNode(roots[t]);
        GrowsTrans(plan, start, prior, Now());
        RootsStayPlaced(roots, prior.index, index, t);
      }
    }

    /** Generates all tries.  Exactly the planned nodes end up placed, each region
        is used up to its last entry, and every placed node is resolved. */
    method GenAll()
      requires Valid() && index == seq(|pool|, _ => None) && done == {}
      modifies this`index, this`cursors, this`done, table, records
      ensures Valid()
      ensures forall n :: 0 <= n < |pool| ==> (index[n].Some? <==> plan[n].Some?)
      ensures forall n :: 0 <= n < |pool| && index[n].Some? ==> n in done
      ensures forall kind :: cursors.At(kind) == End(plan, kind)
      ensures RootsPlaced(roots, index, |roots|)
    {
      GenRoots();
      AllPlaced(pool, roots, plan, index, table[..], done, cursors);
      CursorsAtEnd(pool, plan, index, cursors);
    }
  }

  lemma MatchHasNoChildren(pool: Pool, roots: seq<nat>, plan: Plan, n: nat, x: nat)
    requires Ready(pool, roots, plan) && n < |pool| && plan[n].Some? && plan[n].value.kind.Match?
    requires x < |pool[n].ptrs|
    ensures pool[n].ptrs[x].child.None?
  {
    assert WellFormedNode(pool[n], |pool|) && Suits(pool[n], n in roots, plan[n].value);
  }

  /** What was generated is closed under children and holds the roots, so it is
      everything that was counted. */
  lemma AllPlaced(pool: Pool, roots: seq<nat>, plan: Plan, index: Index, table: seq<Transition>, done: set<nat>,
                  cursors: Cursors)
    requires Ready(pool, roots, plan) && Placement(pool, plan, index, cursors)
    requires DoneOk(pool, plan, index, table, done)
    requires forall n :: 0 <= n < |pool| && index[n].Some? ==> n in done
    requires RootsPlaced(roots, index, |roots|)
    ensures forall n :: 0 <= n < |pool| ==> (index[n].Some? <==> plan[n].Some?)
  {
    var s: set<nat> := set n: nat | n < |index| && index[n].Some?;
    assert EdgeClosed(pool, s) by {
      forall n, x | n in s && n < |pool| && 0 <= x < |pool[n].ptrs| && pool[n].ptrs[x].child.Some?
        ensures pool[n].ptrs[x].child.value in s
      {
        if plan[n].value.kind.Match? {
          MatchHasNoChildren(pool, roots, plan, n, x);
        } else {
          assert Resolved(pool, plan, index, table, n);
        }
      }
    }
    assert forall t :: 0 <= t < |roots| ==> roots[t] in s;
  }

  // ----- the compiled context

  /** What the classifiers get: the transition array, the match records, the
      root offsets.  `index` is the transition of each build node. */
  datatype Compiled = Compiled(table: seq<Transition>, records: seq<Record>, rootIndex: seq<nat>, index: Index)

  datatype Outcome = Built(compiled: Compiled) | TooBig(needed: nat)

  /** Bytes to allocate: data indexes, 8 per transition, 128 per match record, slack. */
  function TotalSize(plan: Plan, dataIndexSize: nat): nat {
    RoundUp(dataIndexSize, 64) + MatchStart(plan) * 8 + End(plan, Match) * 128 + 16
  }

  /** The memory asked for: the data offsets, then from the next cache line on the transitions and the match
      records, then sixteen bytes. */
  lemma TotalSizeIs(plan: Plan, dataIndexSize: nat) returns (base: nat)
    ensures base % 64 == 0 && dataIndexSize <= base < dataIndexSize + 64
    ensures TotalSize(plan, dataIndexSize) == base + 8 * MatchStart(plan) + 128 * End(plan, Match) + 16
  {
    base := RoundUp(dataIndexSize, 64);
  }

  ghost predicate Faithful(pool: Pool, roots: seq<nat>, c: Compiled) {
    && |c.index| == |pool| && |c.rootIndex| == |roots|
    && LowArea(c.table)
    && (forall n :: 0 <= n < |pool| && c.index[n].Some? ==> FaithfulNode(pool, c, n))
    && (forall n, m :: 0 <= n < m < |pool| && c.index[n].Some? && c.index[m].Some? ==> c.index[n] != c.index[m])
    && (forall t :: 0 <= t < |roots| ==> FaithfulRoot(pool, c, roots[t], c.rootIndex[t]))
    && |c.records| > 0 && c.records[0] == Record(0, 0)
  }

  ghost predicate FaithfulNode(pool: Pool, c: Compiled, n: nat)
    requires n < |pool| == |c.index| && c.index[n].Some?
  {
    var t := c.index[n].value;
    && ChildrenPlaced(pool, c.index, n)
    && t != NO_MATCH
    && (t.kind.Match? <==> pool[n].isMatch)
    && (t.kind.Match? ==> t.addr < |c.records| && c.records[t.addr] == pool[n].record)
    && (!t.kind.Match? ==> t.addr < |c.table|)
    && (!t.kind.Match? ==> forall b: byte :: LeadsTo(pool, c, n, StepAddr(t, b), b))
  }

  ghost predicate FaithfulRoot(pool: Pool, c: Compiled, root: nat, base: nat) {
    && root < |pool| == |c.index| && !pool[root].isMatch
    && ChildrenPlaced(pool, c.index, root)
    && forall b: byte :: RootReads(pool, c, root, base, b)
  }

  ghost predicate RootReads(pool: Pool, c: Compiled, root: nat, base: nat, b: byte)
    requires root < |pool| && ChildrenPlaced(pool, c.index, root)
  {
    LeadsTo(pool, c, root, base + b, b)
  }

  /** Table entry `a` is where byte `b` must lead from node `n`. */
  ghost predicate LeadsTo(pool: Pool, c: Compiled, n: nat, a: int, b: byte)
    requires n < |pool| && ChildrenPlaced(pool, c.index, n)
  {
    0 <= a < |c.table| && c.table[a] == Target(pool, c.index, n, b)
  }

  /** The generator's invariant, with everything done, is what the classifiers need. */
  lemma NodeIsFaithful(pool: Pool, roots: seq<nat>, plan: Plan, cursors: Cursors, done: set<nat>, c: Compiled, n: nat)
    requires Ready(pool, roots, plan) && Placement(pool, plan, c.index, cursors)
    requires DoneOk(pool, plan, c.index, c.table, done) && RecordsOk(pool, c.index, c.records)
    requires n < |pool| && c.index[n].Some? && n in done
    ensures FaithfulNode(pool, c, n)
  {
    var t, p := c.index[n].value, plan[n].value;
    assert WellFormedNode(pool[n], |pool|) && Suits(pool[n], n in roots, p);
    assert PlacedAt(pool[n], plan, p, t, cursors);
    if !p.kind.Match? {
      assert ReadsTarget(pool, plan, c.index, c.table, n, 0);
      forall b: byte
        ensures LeadsTo(pool, c, n, StepAddr(t, b), b)
      {
        assert ReadsTarget(pool, plan, c.index, c.table, n, b);
      }
    }
  }

  /** A root is a DFA node whose groups are all in place, so its entries can be
      read at the bare offset. */
  lemma RootIsFaithful(pool: Pool, roots: seq<nat>, plan: Plan, cursors: Cursors, c: Compiled, t: nat)
    requires Ready(pool, roots, plan) && Placement(pool, plan, c.index, cursors) && t < |roots|
    requires roots[t] < |pool| && c.index[roots[t]].Some? && FaithfulNode(pool, c, roots[t])
    ensures FaithfulRoot(pool, c, roots[t], c.index[roots[t]].value.addr)
    ensures c.index[roots[t]].value.kind.Dfa? && c.index[roots[t]].value.lanes == NO_LANES
  {
    var root := roots[t];
    var w := c.index[root].value;
    assert WellFormedNode(pool[root], |pool|) && Suits(pool[root], true, plan[root].value);
    assert PlacedAt(pool[root], plan, plan[root].value, w, cursors);
    assert forall i :: 0 <= i < 4 ==> w.lanes.At(i) == 64 * (i - plan[root].value.group[i]);
    assert w.lanes.At(0) == 0 && w.lanes.At(1) == 0 && w.lanes.At(2) == 0 && w.lanes.At(3) == 0;
    forall b: byte
      ensures RootReads(pool, c, root, w.addr, b)
    {
      assert LeadsTo(pool, c, root, StepAddr(w, b), b);
    }
  }

  lemma AllDistinct(pool: Pool, plan: Plan, index: Index, cursors: Cursors)
    requires Placement(pool, plan, index, cursors) && SizesOk(plan)
    ensures forall n, m :: 0 <= n < m < |pool| && index[n].Some? && index[m].Some? ==> index[n] != index[m]
  {
    forall n, m | 0 <= n < m < |pool| && index[n].Some? && index[m].Some?
      ensures index[n] != index[m]
    {
      DistinctIndexes(pool, plan, index, cursors, n, m);
    }
  }

  /** Compiles the tries, or reports how much memory they would need. */
  method Generate(pool: Pool, roots: seq<nat>, dataIndexSize: nat, maxSize: nat) returns (r: Outcome, ghost plan: Plan)
    requires WellFormed(pool, roots)
    ensures Ready(pool, roots, plan)
    ensures r.TooBig? <==> TotalSize(plan, dataIndexSize) > maxSize
    ensures r.Built? ==> Faithful(pool, roots, r.compiled)
    ensures r.Built? ==> |r.compiled.table| == MatchStart(plan) && |r.compiled.records| == End(plan, Match)
    ensures r.Built? ==> forall n :: 0 <= n < |pool| ==> (r.compiled.index[n].Some? <==> plan[n].Some?)
  {
    var counter := CountAll(pool, roots);
    SuitsGivesSizes(pool, roots, counter.plan);
    plan := counter.plan;
    var quadIndex := DFA_SIZE + 1 + counter.groups * 64;
    var singleIndex := quadIndex + counter.vectors;
    var matchStart := RoundUp(singleIndex + counter.singles + 1, 2);
    var total := RoundUp(dataIndexSize, 64) + matchStart * 8 + (counter.matches + 1) * 128 + 16;
    if total > maxSize {
      return TooBig(total), plan;
    }
    var g := new Generator(pool, roots, counter.plan);
    g.GenAll();
    var rootIndex := RootOffsets(roots, g.index);
    var c := Compiled(g.table[..], g.records[..], rootIndex, g.index);
    MakesFaithful(pool, roots, plan, g.cursors, g.done, c);
    r := Built(c);
  }

  /** The root's transition, cut to 32 bits, is its bare address. */
  method RootOffsets(roots: seq<nat>, index: Index) returns (offsets: seq<nat>)
    requires RootsPlaced(roots, index, |roots|)
    ensures |offsets| == |roots|
    ensures forall t :: 0 <= t < |roots| ==> offsets[t] == index[roots[t]].value.addr
  {
    offsets := [];
    for t := 0 to |roots|
      invariant |offsets| == t && forall u :: 0 <= u < t ==> offsets[u] == index[roots[u]].value.addr
    {
      offsets := offsets + [index[roots[t]].value.addr];
    }
  }

  lemma MakesFaithful(pool: Pool, roots: seq<nat>, plan: Plan, cursors: Cursors, done: set<nat>, c: Compiled)
    requires Ready(pool, roots, plan) && Placement(pool, plan, c.index, cursors) && LowArea(c.table)
    requires DoneOk(pool, plan, c.index, c.table, done) && RecordsOk(pool, c.index, c.records)
    requires forall n :: 0 <= n < |pool| ==> (c.index[n].Some? <==> plan[n].Some?)
    requires forall n :: 0 <= n < |pool| && c.index[n].Some? ==> n in done
    requires |c.rootIndex| == |roots|
    requires forall t :: 0 <= t < |roots| ==> c.index[roots[t]].Some? && c.rootIndex[t] == c.index[roots[t]].value.addr
    ensures Faithful(pool, roots, c)
  {
    forall n | 0 <= n < |pool| && c.index[n].Some?
      ensures FaithfulNode(pool, c, n)
    {
      NodeIsFaithful(pool, roots, plan, cursors, done, c, n);
    }
    forall t | 0 <= t < |roots|
      ensures FaithfulRoot(pool, c, roots[t], c.rootIndex[t])
    {
      RootIsFaithful(pool, roots, plan, cursors, c, t);
    }
    AllDistinct(pool, plan, c.index, cursors);
  }
}
