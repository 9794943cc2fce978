/** Compiler correctness carried over to the packed table of 64-bit words. */
module AclPacked {
  import opened Basics
  import opened AclFormat
  import opened AclTrie
  import opened AclRuns
  import opened AclRange
  import opened AclPlan
  import opened AclPlacement
  import opened AclResolve
  import opened AclGen
  import opened AclCompiler
  import opened AclMeaning
  import opened AclWord

  function WordRun(words: seq<nat>, w: nat, s: seq<byte>): Option<nat>
    decreases |s|
  {
    if s == [] then Some(w)
    else
      var next := WordStep(words, w, s[0]);
      if next.None? then None else WordRun(words, next.value, s[1..])
  }

  function WordRunRoot(words: seq<nat>, base: nat, s: seq<byte>): Option<nat> {
    if s == [] || base + s[0] >= |words| then None else WordRun(words, words[base + s[0]], s[1..])
  }

  /** Every transition in use fits its 29 address bits. */
  ghost predicate Fits(c: Compiled) {
    forall n :: 0 <= n < |c.index| && c.index[n].Some? ==> c.index[n].value.addr < ADDR_LIMIT
  }

  /** Any memory limit of up to 4 GiB keeps the addresses in range; the limit is
      what the size check compares against before anything is generated. */
  lemma SizeLimitKeepsAddresses(pool: Pool, roots: seq<nat>, plan: Plan, c: Compiled, dataIndexSize: nat, maxSize: nat)
    requires Faithful(pool, roots, c) && TotalSize(plan, dataIndexSize) <= maxSize <= 0x1_0000_0000
    requires |c.table| == MatchStart(plan) && |c.records| == End(plan, Match)
    ensures Fits(c)
  {
    assert RoundUp(dataIndexSize, 64) >= 0;
    assert MatchStart(plan) * 8 <= maxSize && End(plan, Match) * 128 <= maxSize;
    forall n | 0 <= n < |c.index| && c.index[n].Some?
      ensures c.index[n].value.addr < ADDR_LIMIT
    {
      assert FaithfulNode(pool, c, n);
    }
  }

  /** Every transition that the run passes fits its address bits. */
  ghost predicate FitsAlong(table: seq<Transition>, t: Transition, s: seq<byte>)
    decreases |s|
  {
    t.addr < ADDR_LIMIT &&
    (s != [] && 0 <= StepAddr(t, s[0]) < |table| ==> FitsAlong(table, Step(table, t, s[0]), s[1..]))
  }

  function PackOption(t: Option<Transition>): Option<nat> {
    if t.None? then None else Some(Pack(t.value))
  }

  /** The packed table runs in step with the table of records. */
  lemma {:induction false} WordRunIsRun(table: seq<Transition>, t: Transition, s: seq<byte>)
    requires FitsAlong(table, t, s)
    ensures WordRun(PackAll(table), Pack(t), s) == PackOption(Run(table, t, s))
    decreases |s|
  {
    if s != [] {
      WordStepIsStep(table, t, s[0]);
      if 0 <= StepAddr(t, s[0]) < |table| {
        WordRunIsRun(table, Step(table, t, s[0]), s[1..]);
      }
    }
  }

  lemma {:induction false} NoMatchFits(table: seq<Transition>, s: seq<byte>)
    requires LowArea(table)
    ensures FitsAlong(table, NO_MATCH, s)
    decreases |s|
  {
    if s != [] {
      assert 0 <= StepAddr(NO_MATCH, s[0]) <= 4;
      NoMatchFits(table, s[1..]);
    }
  }

  lemma {:induction false} WalkFits(pool: Pool, roots: seq<nat>, c: Compiled, n: nat, s: seq<byte>)
    requires Children(pool) && Faithful(pool, roots, c) && Fits(c)
    requires n < |pool| && c.index[n].Some? && ClearPath(pool, n, s)
    ensures FitsAlong(c.table, c.index[n].value, s)
    decreases |s|
  {
    if s != [] {
      assert FaithfulNode(pool, c, n);
      assert LeadsTo(pool, c, n, StepAddr(c.index[n].value, s[0]), s[0]);
      TailFits(pool, roots, c, n, s);
    }
  }

  lemma {:induction false} TailFits(pool: Pool, roots: seq<nat>, c: Compiled, n: nat, s: seq<byte>)
    requires Children(pool) && Faithful(pool, roots, c) && Fits(c) && s != []
    requires n < |pool| && ChildrenPlaced(pool, c.index, n) && ClearPath(pool, n, s)
    ensures FitsAlong(c.table, Target(pool, c.index, n, s[0]), s[1..])
    decreases |s|, 0
  {
    var next := Next(pool, n, s[0]);
    if next.None? {
      NoMatchFits(c.table, s[1..]);
    } else {
      WalkFits(pool, roots, c, next.value, s[1..]);
    }
  }

  /** Running the packed words from `base` ends at the packed result of the walk. */
  ghost predicate PackedAgrees(pool: Pool, c: Compiled, root: nat, base: nat, s: seq<byte>)
    requires Children(pool) && root < |pool| == |c.index|
  {
    WordRunRoot(PackAll(c.table), base, s) == PackOption(Stands(c, Walk(pool, root, s)))
  }

  /** Main theorem on words: the packed table, started at the root offset,
      reaches the packed transition of the node the trie walk reaches. */
  lemma PackedTrieIsTrie(pool: Pool, roots: seq<nat>, c: Compiled, t: nat, s: seq<byte>)
    requires WellFormed(pool, roots) && Faithful(pool, roots, c) && Fits(c)
    requires t < |roots| && s != [] && ClearPath(pool, roots[t], s)
    ensures PackedAgrees(pool, c, roots[t], c.rootIndex[t], s)
  {
    assert FaithfulRoot(pool, c, roots[t], c.rootIndex[t]);
    assert RootReads(pool, c, roots[t], c.rootIndex[t], s[0]);
    TailFits(pool, roots, c, roots[t], s);
    WordRunIsRun(c.table, c.table[c.rootIndex[t] + s[0]], s[1..]);
    CompiledTrieIsTrie(pool, roots, c, t, s);
  }

  /** Every range boundary the compiler writes is in ascending signed order, so
      the scalar search and the counting search agree on compiled nodes. */
  lemma CompiledBoundsAscend(pool: Pool, plan: Plan, index: Index, cursors: Cursors, n: nat)
    requires Placement(pool, plan, index, cursors) && n < |pool| && index[n].Some? && !index[n].value.kind.Dfa?
    ensures Ascending(index[n].value.lanes)
  {
    var t := index[n].value;
    assert PlacedAt(pool[n], plan, plan[n].value, t, cursors);
    if t.kind.Quad? {
      BoundsAscend(Deciders(pool[n].ptrs), [t.lanes.l0, t.lanes.l1, t.lanes.l2, t.lanes.l3]);
    }
  }

  lemma BoundsAscend(g: seq<int>, bounds: seq<byte>)
    requires |g| == 256 && Bounds(AllBreaks(g), bounds)
    ensures Ascending(ToLanes(bounds))
  {
    var breaks := AllBreaks(g);
    BreaksAscend(g, |g|);
    forall i | 0 <= i < 3
      ensures Rank(bounds[i]) <= Rank(bounds[i + 1])
    {
      if i + 1 < |breaks| {
        assert breaks[i] < breaks[i + 1];
      }
    }
  }
}
