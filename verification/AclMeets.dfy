/** Compiler and search together: what the search reports is what walking the
    build tries says. */
module AclMeets {
  import opened Basics
  import opened AclFormat
  import opened AclTrie
  import opened AclCompiler
  import opened AclMeaning
  import opened AclTraversal

  /** The meaning of a trie: walk until a match node or until stuck. */
  function Classify(pool: Pool, n: nat, s: seq<byte>): Record
    requires Children(pool) && n < |pool|
    decreases |s|
  {
    if pool[n].isMatch then pool[n].record
    else if s == [] then Record(0, 0)
    else if Next(pool, n, s[0]).None? then Record(0, 0)
    else Classify(pool, Next(pool, n, s[0]).value, s[1..])
  }

  /** The trie fits the way the search reads it: `depth` counts the bytes from
      the root, match nodes sit at depths 1, 5, 9, ..., and `height` bounds the
      bytes still needed, which the data offsets of trie `t` must supply. */
  ghost predicate Fitting(pool: Pool, roots: seq<nat>, dataIndex: seq<seq<nat>>, depth: seq<nat>, height: seq<nat>) {
    && |depth| == |height| == |pool| && |dataIndex| == |roots|
    && (forall n :: 0 <= n < |pool| ==> FittingNode(pool, depth, height, n))
    && (forall t :: 0 <= t < |roots| ==> roots[t] < |pool| && depth[roots[t]] == 0 &&
                                         |dataIndex[t]| > 0 && height[roots[t]] <= 4 * |dataIndex[t]| - 3)
  }

  ghost predicate FittingNode(pool: Pool, depth: seq<nat>, height: seq<nat>, n: nat)
    requires n < |pool| == |depth| == |height|
  {
    && (pool[n].isMatch ==> depth[n] % 4 == 1)
    && (pool[n].isMatch ==> forall x :: 0 <= x < |pool[n].ptrs| ==> pool[n].ptrs[x].child.None?)
    && (!pool[n].isMatch ==> height[n] > 0)
    && forall x :: 0 <= x < |pool[n].ptrs| && pool[n].ptrs[x].child.Some? ==>
         && pool[n].ptrs[x].child.value < |pool|
         && depth[pool[n].ptrs[x].child.value] == depth[n] + 1
         && height[pool[n].ptrs[x].child.value] < height[n]
  }

  ghost predicate Stopped(pool: Pool, r: Option<nat>)
    requires r.Some? ==> r.value < |pool|
  {
    r.None? || pool[r.value].isMatch
  }

  lemma {:induction false} WalkDepth(pool: Pool, depth: seq<nat>, height: seq<nat>, n: nat, s: seq<byte>)
    requires Children(pool) && |depth| == |height| == |pool| && n < |pool|
    requires forall m :: 0 <= m < |pool| ==> FittingNode(pool, depth, height, m)
    ensures Walk(pool, n, s).Some? ==> depth[Walk(pool, n, s).value] == depth[n] + |s|
    decreases |s|
  {
    if s != [] && Next(pool, n, s[0]).Some? {
      assert FittingNode(pool, depth, height, n);
      WalkDepth(pool, depth, height, Next(pool, n, s[0]).value, s[1..]);
    }
  }

  /** After as many bytes as the node's height the walk has stopped. */
  lemma {:induction false} WalkStops(pool: Pool, depth: seq<nat>, height: seq<nat>, n: nat, s: seq<byte>)
    requires Children(pool) && |depth| == |height| == |pool| && n < |pool| && height[n] <= |s|
    requires forall m :: 0 <= m < |pool| ==> FittingNode(pool, depth, height, m)
    ensures Stopped(pool, Walk(pool, n, s))
    decreases |s|
  {
    assert FittingNode(pool, depth, height, n);
    if s != [] && Next(pool, n, s[0]).Some? {
      WalkStops(pool, depth, height, Next(pool, n, s[0]).value, s[1..]);
    }
  }

  /** A path that is not clear passes a match node. */
  lemma {:induction false} MatchPassed(pool: Pool, n: nat, s: seq<byte>) returns (j: nat)
    requires Children(pool) && n < |pool| && !ClearPath(pool, n, s)
    ensures j < |s| && Walk(pool, n, s[..j]).Some? && pool[Walk(pool, n, s[..j]).value].isMatch
    decreases |s|
  {
    if pool[n].isMatch {
      j := 0;
    } else {
      var i := MatchPassed(pool, Next(pool, n, s[0]).value, s[1..]);
      j := i + 1;
      assert s[..j][1..] == s[1..][..i];
    }
  }

  /** A clear walk that has stopped decides the classification of any longer input. */
  lemma {:induction false} StopDecides(pool: Pool, n: nat, s: seq<byte>, rest: seq<byte>)
    requires Children(pool) && n < |pool| && ClearPath(pool, n, s) && Stopped(pool, Walk(pool, n, s))
    ensures Classify(pool, n, s + rest) ==
            if Walk(pool, n, s).None? then Record(0, 0) else pool[Walk(pool, n, s).value].record
    decreases |s|
  {
    if s != [] {
      assert (s + rest)[0] == s[0] && (s + rest)[1..] == s[1..] + rest;
      if Next(pool, n, s[0]).Some? {
        StopDecides(pool, Next(pool, n, s[0]).value, s[1..], rest);
      }
    }
  }

  // ----- along the blocks

  /** All bytes the search may read for a trie. */
  function Input(d: seq<byte>, di: seq<nat>): seq<byte>
    requires InBounds(d, di)
  {
    Stream(d, di, |di| - 1)
  }

  lemma {:induction false} StreamPrefix(d: seq<byte>, di: seq<nat>, j: nat, k: nat)
    requires InBounds(d, di) && j <= k < |di|
    ensures Stream(d, di, j) <= Stream(d, di, k)
  {
    if j < k {
      StreamPrefix(d, di, j, k - 1);
    }
  }

  /** First block after which the walk has stopped, looking from block `k` on. */
  ghost function StopBlock(pool: Pool, n: nat, d: seq<byte>, di: seq<nat>, k: nat): (r: nat)
    requires Children(pool) && n < |pool| && InBounds(d, di) && k < |di|
    ensures k <= r < |di|
    ensures forall j :: k <= j < r ==> !Stopped(pool, Walk(pool, n, Stream(d, di, j)))
    ensures r < |di| - 1 ==> Stopped(pool, Walk(pool, n, Stream(d, di, r)))
    decreases |di| - k
  {
    if k == |di| - 1 || Stopped(pool, Walk(pool, n, Stream(d, di, k))) then k else StopBlock(pool, n, d, di, k + 1)
  }

  /** Up to the block where the walk stops, no match node is passed unseen:
      match depths are exactly the places where the search looks. */
  lemma ClearToStop(pool: Pool, roots: seq<nat>, dataIndex: seq<seq<nat>>, depth: seq<nat>, height: seq<nat>,
                    t: nat, d: seq<byte>, k: nat)
    requires Children(pool) && Fitting(pool, roots, dataIndex, depth, height) && t < |roots| &&
      InBounds(d, dataIndex[t])
    requires k <= StopBlock(pool, roots[t], d, dataIndex[t], 0)
    ensures ClearPath(pool, roots[t], Stream(d, dataIndex[t], k))
  {
    var n, di := roots[t], dataIndex[t];
    var s := Stream(d, di, k);
    if !ClearPath(pool, n, s) {
      var j := MatchPassed(pool, n, s);
      var m := Walk(pool, n, s[..j]).value;
      WalkDepth(pool, depth, height, n, s[..j]);
      assert FittingNode(pool, depth, height, m);
      var i := j / 4;
      assert j == 1 + 4 * i;
      StreamPrefix(d, di, i, k);
      assert s[..j] == Stream(d, di, i) && Stopped(pool, Walk(pool, n, s[..j]));
    }
  }

  /** At the stopping block the walk has indeed stopped. */
  lemma StopIsStopped(pool: Pool, roots: seq<nat>, dataIndex: seq<seq<nat>>, depth: seq<nat>, height: seq<nat>,
                      t: nat, d: seq<byte>)
    requires Children(pool) && Fitting(pool, roots, dataIndex, depth, height) && t < |roots| &&
      InBounds(d, dataIndex[t])
    ensures Stopped(pool, Walk(pool, roots[t], Stream(d, dataIndex[t], StopBlock(pool, roots[t], d, dataIndex[t], 0))))
  {
    var k := StopBlock(pool, roots[t], d, dataIndex[t], 0);
    if k == |dataIndex[t]| - 1 {
      WalkStops(pool, depth, height, roots[t], Stream(d, dataIndex[t], k));
    }
  }

  function CtxOf(c: Compiled, dataIndex: seq<seq<nat>>): Ctx {
    Ctx(c.table, c.records, c.rootIndex, dataIndex)
  }

  ghost predicate Given(pool: Pool, roots: seq<nat>, c: Compiled, dataIndex: seq<seq<nat>>, depth: seq<nat>,
      height: seq<nat>)
  {
    && WellFormed(pool, roots) && Faithful(pool, roots, c)
    && Fitting(pool, roots, dataIndex, depth, height)
  }

  /** Before and at the stopping block, the slot's transition stands for the walk. */
  lemma AtIsWalk(pool: Pool, roots: seq<nat>, c: Compiled, dataIndex: seq<seq<nat>>, depth: seq<nat>, height: seq<nat>,
                 t: nat, d: seq<byte>, k: nat)
    requires Given(pool, roots, c, dataIndex, depth, height) && t < |roots| && InBounds(d, dataIndex[t])
    requires k <= StopBlock(pool, roots[t], d, dataIndex[t], 0)
    ensures var r := Walk(pool, roots[t], Stream(d, dataIndex[t], k));
            && Compiles(c, r) && At(CtxOf(c, dataIndex), d, t, k) == Stands(c, r)
            && (Stands(c, r).value.kind.Match? <==> Stopped(pool, r))
  {
    ClearToStop(pool, roots, dataIndex, depth, height, t, d, k);
    CompiledTrieIsTrie(pool, roots, c, t, Stream(d, dataIndex[t], k));
    TransitionTellsNode(pool, roots, c, Walk(pool, roots[t], Stream(d, dataIndex[t], k)));
  }

  /** The traversal finishes exactly where the walk stops. */
  lemma DepthIsStop(pool: Pool, roots: seq<nat>, c: Compiled, dataIndex: seq<seq<nat>>, depth: seq<nat>,
      height: seq<nat>, t: nat, d: seq<byte>)
    requires Given(pool, roots, c, dataIndex, depth, height) && t < |roots| && InBounds(d, dataIndex[t])
    ensures Depth(CtxOf(c, dataIndex), d, t, 0) == StopBlock(pool, roots[t], d, dataIndex[t], 0)
    ensures forall k :: 0 <= k <= StopBlock(pool, roots[t], d, dataIndex[t], 0) ==>
      At(CtxOf(c, dataIndex), d, t, k).Some?
  {
    var ctx := CtxOf(c, dataIndex);
    var stop := StopBlock(pool, roots[t], d, dataIndex[t], 0);
    StopIsStopped(pool, roots, dataIndex, depth, height, t, d);
    forall k | 0 <= k <= stop
      ensures At(ctx, d, t, k).Some? && (At(ctx, d, t, k).value.kind.Match? <==> k == stop)
    {
      AtIsWalk(pool, roots, c, dataIndex, depth, height, t, d, k);
    }
    DepthUnique(ctx, d, t, stop);
  }

  /** The input read up to the stopping block settles the classification. */
  lemma StopClassifies(pool: Pool, roots: seq<nat>, dataIndex: seq<seq<nat>>, depth: seq<nat>, height: seq<nat>,
                       t: nat, d: seq<byte>)
    requires Children(pool) && Fitting(pool, roots, dataIndex, depth, height) && t < |roots| &&
      InBounds(d, dataIndex[t])
    ensures var r := Walk(pool, roots[t], Stream(d, dataIndex[t], StopBlock(pool, roots[t], d, dataIndex[t], 0)));
            Classify(pool, roots[t], Input(d, dataIndex[t])) == if r.None? then Record(0, 0) else pool[r.value].record
  {
    var di := dataIndex[t];
    var stop := StopBlock(pool, roots[t], d, di, 0);
    var s := Stream(d, di, stop);
    StopIsStopped(pool, roots, dataIndex, depth, height, t, d);
    ClearToStop(pool, roots, dataIndex, depth, height, t, d, stop);
    InputExtends(d, di, stop);
    StopDecides(pool, roots[t], s, Input(d, di)[|s|..]);
  }

  lemma InputExtends(d: seq<byte>, di: seq<nat>, k: nat)
    requires InBounds(d, di) && k < |di|
    ensures var s := Stream(d, di, k); |s| <= |Input(d, di)| && s + Input(d, di)[|s|..] == Input(d, di)
  {
    StreamPrefix(d, di, k, |di| - 1);
  }

  /** One traversal of the compiled table gives the trie's own answer. */
  lemma VerdictIsClassify(pool: Pool, roots: seq<nat>, c: Compiled, dataIndex: seq<seq<nat>>, depth: seq<nat>,
      height: seq<nat>, t: nat, d: seq<byte>)
    requires Given(pool, roots, c, dataIndex, depth, height) && t < |roots| && InBounds(d, dataIndex[t])
    ensures Finishes(CtxOf(c, dataIndex), d, t)
    ensures Verdict(CtxOf(c, dataIndex), d, t) == Classify(pool, roots[t], Input(d, dataIndex[t]))
  {
    var stop := StopBlock(pool, roots[t], d, dataIndex[t], 0);
    DepthIsStop(pool, roots, c, dataIndex, depth, height, t, d);
    AtIsWalk(pool, roots, c, dataIndex, depth, height, t, d, stop);
    StopIsStopped(pool, roots, dataIndex, depth, height, t, d);
    TransitionTellsNode(pool, roots, c, Walk(pool, roots[t], Stream(d, dataIndex[t], stop)));
    StopClassifies(pool, roots, dataIndex, depth, height, t, d);
  }
}
