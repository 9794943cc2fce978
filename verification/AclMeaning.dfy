/** Compiler correctness: running the table is walking the trie. */
module AclMeaning {
  import opened Basics
  import opened AclFormat
  import opened AclTrie
  import opened AclResolve
  import opened AclGen
  import opened AclCompiler

  /** Steps over a byte string; None if a step would read outside the table. */
  function Run(table: seq<Transition>, t: Transition, s: seq<byte>): Option<Transition>
    decreases |s|
  {
    if s == [] then Some(t)
    else if 0 <= StepAddr(t, s[0]) < |table| then Run(table, Step(table, t, s[0]), s[1..])
    else None
  }

  /** The first byte of a traversal is looked up at the root's bare offset. */
  function RunRoot(table: seq<Transition>, base: nat, s: seq<byte>): Option<Transition> {
    if s == [] || base + s[0] >= |table| then None else Run(table, table[base + s[0]], s[1..])
  }

  /** No match node is passed before the end of `s`: the classifiers stop at the
      first one they see, and would not survive stepping past it. */
  ghost predicate ClearPath(pool: Pool, n: nat, s: seq<byte>)
    requires Children(pool) && n < |pool|
    decreases |s|
  {
    s == [] ||
    (!pool[n].isMatch && (Next(pool, n, s[0]).Some? ==> ClearPath(pool, Next(pool, n, s[0]).value, s[1..])))
  }

  /** The transition that stands for the result of a walk. */
  function Stands(c: Compiled, r: Option<nat>): Option<Transition>
    requires r.Some? ==> r.value < |c.index|
  {
    if r.None? then Some(NO_MATCH) else c.index[r.value]
  }

  /** Whatever byte comes next, no-match stays no-match. */
  lemma {:induction false} NoMatchStays(table: seq<Transition>, s: seq<byte>)
    requires LowArea(table)
    ensures Run(table, NO_MATCH, s) == Some(NO_MATCH)
    decreases |s|
  {
    if s != [] {
      assert 0 <= StepAddr(NO_MATCH, s[0]) <= 4;
      NoMatchStays(table, s[1..]);
    }
  }

  lemma {:induction false} RunIsWalk(pool: Pool, roots: seq<nat>, c: Compiled, n: nat, s: seq<byte>)
    requires Children(pool) && Faithful(pool, roots, c)
    requires n < |pool| && c.index[n].Some? && ClearPath(pool, n, s)
    ensures Run(c.table, c.index[n].value, s) == Stands(c, Walk(pool, n, s))
    ensures Walk(pool, n, s).Some? ==> c.index[Walk(pool, n, s).value].Some?
    decreases |s|
  {
    if s != [] {
      assert FaithfulNode(pool, c, n);
      assert LeadsTo(pool, c, n, StepAddr(c.index[n].value, s[0]), s[0]);
      TailIsWalk(pool, roots, c, n, s);
    }
  }

  lemma {:induction false} TailIsWalk(pool: Pool, roots: seq<nat>, c: Compiled, n: nat, s: seq<byte>)
    requires Children(pool) && Faithful(pool, roots, c) && s != []
    requires n < |pool| && ChildrenPlaced(pool, c.index, n) && ClearPath(pool, n, s)
    ensures Run(c.table, Target(pool, c.index, n, s[0]), s[1..]) == Stands(c, Walk(pool, n, s))
    ensures Walk(pool, n, s).Some? ==> c.index[Walk(pool, n, s).value].Some?
    decreases |s|, 0
  {
    var next := Next(pool, n, s[0]);
    if next.None? {
      NoMatchStays(c.table, s[1..]);
    } else {
      RunIsWalk(pool, roots, c, next.value, s[1..]);
    }
  }

  /** Main theorem of the compiler: for every trie and every input, stepping the
      generated table from the root offset reaches the transition of the node
      that walking the build trie reaches, or no-match if the walk gets stuck. */
  lemma CompiledTrieIsTrie(pool: Pool, roots: seq<nat>, c: Compiled, t: nat, s: seq<byte>)
    requires WellFormed(pool, roots) && Faithful(pool, roots, c)
    requires t < |roots| && s != [] && ClearPath(pool, roots[t], s)
    ensures RunRoot(c.table, c.rootIndex[t], s) == Stands(c, Walk(pool, roots[t], s))
    ensures Walk(pool, roots[t], s).Some? ==> c.index[Walk(pool, roots[t], s).value].Some?
  {
    assert FaithfulRoot(pool, c, roots[t], c.rootIndex[t]);
    assert RootReads(pool, c, roots[t], c.rootIndex[t], s[0]);
    TailIsWalk(pool, roots, c, roots[t], s);
  }

  /** The walk result is one the compiled context has a transition for. */
  ghost predicate Compiles(c: Compiled, r: Option<nat>) {
    r.Some? ==> r.value < |c.index| && c.index[r.value].Some?
  }

  /** The record that a match transition selects. */
  function RecordOf(c: Compiled, r: Option<nat>): Option<Record>
    requires r.Some? ==> r.value < |c.index| && c.index[r.value].Some?
  {
    var a := Stands(c, r).value.addr;
    if a < |c.records| then Some(c.records[a]) else None
  }

  /** The reached transition also tells where the walk ended: it has the match
      bit exactly when the walk is stuck or at a match node, its record is that
      node's record (record 0 when stuck), and no two nodes share it. */
  lemma TransitionTellsNode(pool: Pool, roots: seq<nat>, c: Compiled, r: Option<nat>)
    requires Faithful(pool, roots, c)
    requires Compiles(c, r)
    ensures Stands(c, r).value.kind.Match? <==> r.None? || pool[r.value].isMatch
    ensures Stands(c, r).value.kind.Match? ==>
      RecordOf(c, r) == Some(if r.None? then Record(0, 0) else pool[r.value].record)
    ensures forall q: Option<nat> :: Compiles(c, q) && Stands(c, q) == Stands(c, r) ==> q == r
  {
    if r.Some? {
      assert FaithfulNode(pool, c, r.value);
    }
    forall q: Option<nat> | Compiles(c, q) && Stands(c, q) == Stands(c, r)
      ensures q == r
    {
      if q.Some? {
        assert FaithfulNode(pool, c, q.value);
      }
    }
  }
}
