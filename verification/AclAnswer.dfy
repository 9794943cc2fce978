/** Does the order in which tries finish matter?  And the whole path from build
    tries to per-packet results. */
module AclAnswer {
  import opened Basics
  import opened AclTrie
  import opened AclGen
  import opened AclPlan
  import opened AclCompiler
  import opened AclTraversal
  import opened AclMeets
  import opened AclSearch
  import opened AclSearchSteps
  import opened AclClassify

  // ----- resolving in a given order

  /** Keeps the running answer unless the new priority is at least as high. */
  function Resolve(acc: Record, v: Record): Record {
    if acc.priority <= v.priority then v else acc
  }

  /** The answer when the tries finish in the order listed. */
  function InOrder(row: seq<Record>, order: seq<nat>): Record
    requires order != [] && forall i :: 0 <= i < |order| ==> order[i] < |row|
  {
    var v := row[order[|order| - 1]];
    if |order| == 1 then v else Resolve(InOrder(row, order[..|order| - 1]), v)
  }

  /** Every trie finishes exactly once. */
  ghost predicate IsOrder(row: seq<Record>, order: seq<nat>) {
    && order != []
    && (forall i :: 0 <= i < |order| ==> order[i] < |row|)
    && (forall i, j :: 0 <= i < j < |order| ==> order[i] != order[j])
    && forall t: nat :: t < |row| ==> t in order
  }

  lemma {:induction false} InOrderIsMax(row: seq<Record>, order: seq<nat>) returns (k: nat)
    requires order != [] && forall i :: 0 <= i < |order| ==> order[i] < |row|
    ensures k < |order| && InOrder(row, order) == row[order[k]]
    ensures forall i :: 0 <= i < |order| ==> row[order[i]].priority <= row[order[k]].priority
  {
    var n := |order| - 1;
    if n == 0 {
      k := 0;
    } else {
      var j := InOrderIsMax(row, order[..n]);
      k := if row[order[j]].priority <= row[order[n]].priority then n else j;
      forall i | 0 <= i < |order|
        ensures row[order[i]].priority <= row[order[k]].priority
      {
        if i < n {
          assert order[..n][i] == order[i];
        }
      }
    }
  }

  /** Whatever the order, the answer is that of a trie of highest priority. */
  lemma InOrderIsTop(row: seq<Record>, order: seq<nat>)
    requires IsOrder(row, order)
    ensures TopResult(row, InOrder(row, order).result)
  {
    var k := InOrderIsMax(row, order);
    forall u: nat | u < |row|
      ensures row[u].priority <= row[order[k]].priority
    {
      assert u in order;
      var i :| 0 <= i < |order| && order[i] == u;
    }
    assert IsTop(row, order[k]);
  }

  /** Tries that share the highest priority give the same result. */
  ghost predicate TopsAgree(row: seq<Record>) {
    forall t: nat, u: nat :: IsTop(row, t) && IsTop(row, u) ==> row[t].result == row[u].result
  }

  lemma DistinctPrioritiesAgree(row: seq<Record>)
    requires forall t, u :: 0 <= t < u < |row| ==> row[t].priority != row[u].priority
    ensures TopsAgree(row)
  {
  }

  /** The order in which a top trie finishes last. */
  function LastTrie(n: nat, t: nat): (order: seq<nat>)
    requires t < n
  {
    Others(n, t) + [t]
  }

  function Others(n: nat, t: nat): (order: seq<nat>)
    ensures forall i :: 0 <= i < |order| ==> order[i] < n && order[i] != t
    ensures forall i, j :: 0 <= i < j < |order| ==> order[i] != order[j]
    ensures forall u: nat :: u < n && u != t ==> u in order
  {
    if n == 0 then [] else if n - 1 == t then Others(n - 1, t) else Others(n - 1, t) + [n - 1]
  }

  lemma LastTrieWins(row: seq<Record>, t: nat)
    requires IsTop(row, t)
    ensures IsOrder(row, LastTrie(|row|, t)) && InOrder(row, LastTrie(|row|, t)) == row[t]
  {
    var order := LastTrie(|row|, t);
    var n := |order| - 1;
    forall u: nat | u < |row|
      ensures u in order
    {
      if u != t {
        assert u in Others(|row|, t);
      } else {
        assert order[n] == t;
      }
    }
    if n > 0 {
      var k := InOrderIsMax(row, order[..n]);
    }
  }

  /** The answer is the same for every order exactly when the top tries agree. */
  lemma OrderDoesNotMatter(row: seq<Record>)
    ensures TopsAgree(row) <==>
            forall a, b :: IsOrder(row, a) && IsOrder(row, b) ==> InOrder(row, a).result == InOrder(row, b).result
  {
    if TopsAgree(row) {
      forall a, b | IsOrder(row, a) && IsOrder(row, b)
        ensures InOrder(row, a).result == InOrder(row, b).result
      {
        InOrderIsTop(row, a);
        InOrderIsTop(row, b);
      }
    } else {
      var t: nat, u: nat :| IsTop(row, t) && IsTop(row, u) && row[t].result != row[u].result;
      LastTrieWins(row, t);
      LastTrieWins(row, u);
    }
  }

  /** With agreeing tops, any top result is the one of classifying trie after trie. */
  lemma TopIsSequential(row: seq<Record>, order: seq<nat>, result: nat)
    requires TopsAgree(row) && TopResult(row, result) && IsOrder(row, order)
    ensures result == InOrder(row, order).result
  {
    InOrderIsTop(row, order);
  }

  // ----- from build tries to results

  /** The answer of every build trie for a packet. */
  ghost function TrieAnswers(pool: Pool, roots: seq<nat>, dataIndex: seq<seq<nat>>, d: seq<byte>): (row: seq<Record>)
    requires Children(pool) && |dataIndex| == |roots|
    requires forall t :: 0 <= t < |roots| ==> roots[t] < |pool| && InBounds(d, dataIndex[t])
    ensures |row| == |roots|
    ensures forall t :: 0 <= t < |roots| ==> row[t] == Classify(pool, roots[t], Input(d, dataIndex[t]))
  {
    seq(|roots|, t requires 0 <= t < |roots| => Classify(pool, roots[t], Input(d, dataIndex[t])))
  }

  ghost predicate Readable(roots: seq<nat>, dataIndex: seq<seq<nat>>, data: seq<seq<byte>>) {
    |dataIndex| == |roots| &&
    forall p, t :: 0 <= p < |data| && 0 <= t < |roots| ==> InBounds(data[p], dataIndex[t])
  }

  lemma CompiledIsSearchable(pool: Pool, roots: seq<nat>, c: Compiled, dataIndex: seq<seq<nat>>, depth: seq<nat>,
                             height: seq<nat>, data: seq<seq<byte>>)
    requires Given(pool, roots, c, dataIndex, depth, height) && Readable(roots, dataIndex, data) && |roots| > 0
    ensures Searchable(CtxOf(c, dataIndex), data)
    ensures forall p :: 0 <= p < |data| ==>
      WorkOf(CtxOf(c, dataIndex), data).verdicts[p] == TrieAnswers(pool, roots, dataIndex, data[p])
  {
    var ctx := CtxOf(c, dataIndex);
    forall p, t | 0 <= p < |data| && 0 <= t < |roots|
      ensures Finishes(ctx, data[p], t)
      ensures Verdict(ctx, data[p], t) == Classify(pool, roots[t], Input(data[p], dataIndex[t]))
    {
      VerdictIsClassify(pool, roots, c, dataIndex, depth, height, t, data[p]);
    }
  }

  /** Build tries in, results out: compile, search in `slots` interleaved slots
      checked group by group, and report per packet.  Every result is that of a
      build trie of highest priority for the packet. */
  method BuildAndClassify(pool: Pool, roots: seq<nat>, dataIndex: seq<seq<nat>>, data: seq<seq<byte>>,
                          dataIndexSize: nat, maxSize: nat, slots: nat, groups: seq<seq<nat>>,
                          ghost depth: seq<nat>, ghost height: seq<nat>)
    returns (r: Option<seq<nat>>, ghost plan: Plan)
    requires WellFormed(pool, roots) && Fitting(pool, roots, dataIndex, depth, height)
    requires Readable(roots, dataIndex, data) && |roots| > 0 && slots > 0 && Groups(groups, slots)
    ensures Ready(pool, roots, plan) && (r.None? <==> TotalSize(plan, dataIndexSize) > maxSize)
    ensures r.Some? ==> |r.value| == |data|
    ensures r.Some? ==> forall p :: 0 <= p < |data| ==>
      TopResult(TrieAnswers(pool, roots, dataIndex, data[p]), r.value[p])
  {
    var built;
    built, plan := Generate(pool, roots, dataIndexSize, maxSize);
    if built.TooBig? {
      return None, plan;
    }
    var c := built.compiled;
    CompiledIsSearchable(pool, roots, c, dataIndex, depth, height, data);
    var results := new nat[|data|];
    var s := new Searcher(CtxOf(c, dataIndex), data, slots, results);
    s.Search(groups);
    r := Some(results[..]);
    assert AllTop(s.w, results[..]);
  }
}
