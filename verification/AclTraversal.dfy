/** One trie traversal of one packet: a first byte, then blocks of four. */
module AclTraversal {
  import opened Basics
  import opened AclFormat
  import opened AclTrie
  import opened AclGen
  import opened AclMeaning

  /** What the search reads: table, records and, per trie, the root offset and
      the packet offsets to read from. */
  datatype Ctx = Ctx(table: seq<Transition>, records: seq<Record>, rootIndex: seq<nat>, dataIndex: seq<seq<nat>>)

  ghost predicate InBounds(d: seq<byte>, di: seq<nat>) {
    |di| > 0 && di[0] < |d| && forall j :: 1 <= j < |di| ==> di[j] + 4 <= |d|
  }

  /** The bytes consumed after the first byte and `k` blocks. */
  function Stream(d: seq<byte>, di: seq<nat>, k: nat): (s: seq<byte>)
    requires InBounds(d, di) && k < |di|
    ensures |s| == 1 + 4 * k && s[0] == d[di[0]]
  {
    if k == 0 then [d[di[0]]] else Stream(d, di, k - 1) + d[di[k]..di[k] + 4]
  }

  /** The slot's transition after `k` blocks of the traversal of trie `t`. */
  function At(ctx: Ctx, d: seq<byte>, t: nat, k: nat): Option<Transition>
    requires t < |ctx.rootIndex| == |ctx.dataIndex| && InBounds(d, ctx.dataIndex[t]) && k < |ctx.dataIndex[t]|
  {
    RunRoot(ctx.table, ctx.rootIndex[t], Stream(d, ctx.dataIndex[t], k))
  }

  /** Number of blocks until the first match transition, looking from block `k` on. */
  function Depth(ctx: Ctx, d: seq<byte>, t: nat, k: nat): (n: nat)
    requires t < |ctx.rootIndex| == |ctx.dataIndex| && InBounds(d, ctx.dataIndex[t]) && k <= |ctx.dataIndex[t]|
    ensures k <= n <= |ctx.dataIndex[t]|
    ensures forall j :: k <= j < n && At(ctx, d, t, j).Some? ==> !At(ctx, d, t, j).value.kind.Match?
    ensures n < |ctx.dataIndex[t]| ==> At(ctx, d, t, n).Some? && At(ctx, d, t, n).value.kind.Match?
    decreases |ctx.dataIndex[t]| - k
  {
    if k == |ctx.dataIndex[t]| then k
    else if At(ctx, d, t, k).Some? && At(ctx, d, t, k).value.kind.Match? then k
    else Depth(ctx, d, t, k + 1)
  }

  lemma DepthUnique(ctx: Ctx, d: seq<byte>, t: nat, stop: nat)
    requires t < |ctx.rootIndex| == |ctx.dataIndex| && InBounds(d, ctx.dataIndex[t]) && stop < |ctx.dataIndex[t]|
    requires forall k :: 0 <= k <= stop ==>
      At(ctx, d, t, k).Some? && (At(ctx, d, t, k).value.kind.Match? <==> k == stop)
    ensures Depth(ctx, d, t, 0) == stop
  {
    assert At(ctx, d, t, stop).Some?;
  }

  /** The traversal stays inside table and packet and ends at a match. */
  ghost predicate Finishes(ctx: Ctx, d: seq<byte>, t: nat) {
    && t < |ctx.rootIndex| == |ctx.dataIndex|
    && InBounds(d, ctx.dataIndex[t])
    && Depth(ctx, d, t, 0) < |ctx.dataIndex[t]|
    && (forall k :: 0 <= k <= Depth(ctx, d, t, 0) ==> At(ctx, d, t, k).Some?)
    && At(ctx, d, t, Depth(ctx, d, t, 0)).value.addr < |ctx.records|
  }

  /** What trie `t` says about packet `d`. */
  function Verdict(ctx: Ctx, d: seq<byte>, t: nat): Record
    requires Finishes(ctx, d, t)
  {
    ctx.records[At(ctx, d, t, Depth(ctx, d, t, 0)).value.addr]
  }

  ghost predicate Searchable(ctx: Ctx, data: seq<seq<byte>>) {
    && |ctx.rootIndex| > 0
    && LowArea(ctx.table)
    && forall p, t :: 0 <= p < |data| && 0 <= t < |ctx.rootIndex| ==> Finishes(ctx, data[p], t)
  }

  // ----- advancing by one block

  lemma {:induction false} RunConcat(table: seq<Transition>, t: Transition, a: seq<byte>, b: seq<byte>)
    ensures Run(table, t, a + b) == if Run(table, t, a).None? then None else Run(table, Run(table, t, a).value, b)
    decreases |a|
  {
    if a == [] {
      assert a + b == b;
    } else {
      assert (a + b)[1..] == a[1..] + b;
      if 0 <= StepAddr(t, a[0]) < |table| {
        RunConcat(table, Step(table, t, a[0]), a[1..], b);
      }
    }
  }

  /** One more block continues the run from where it was. */
  lemma NextBlock(ctx: Ctx, d: seq<byte>, t: nat, k: nat)
    requires t < |ctx.rootIndex| == |ctx.dataIndex| && InBounds(d, ctx.dataIndex[t]) && 1 <= k < |ctx.dataIndex[t]|
    requires At(ctx, d, t, k - 1).Some?
    ensures var o := ctx.dataIndex[t][k];
            At(ctx, d, t, k) == Run(ctx.table, At(ctx, d, t, k - 1).value, d[o..o + 4])
  {
    var di, base := ctx.dataIndex[t], ctx.rootIndex[t];
    var s, block := Stream(d, di, k - 1), d[di[k]..di[k] + 4];
    assert Stream(d, di, k) == s + block;
    assert (s + block)[1..] == s[1..] + block;
    RunConcat(ctx.table, ctx.table[base + s[0]], s[1..], block);
  }

  /** Four single steps make a block; the idle node stays put on zero bytes. */
  method StepBlock(table: seq<Transition>, t: Transition, block: seq<byte>) returns (t': Transition)
    requires |block| == 4 && Run(table, t, block).Some?
    ensures Run(table, t, block) == Some(t')
  {
    t' := t;
    for i := 0 to 4
      invariant Run(table, t', block[i..]) == Run(table, t, block)
    {
      assert block[i..][1..] == block[i + 1..] && block[i..][0] == block[i];
      t' := Step(table, t', block[i]);
    }
    assert block[4..] == [];
  }

  lemma {:induction false} IdleStays(table: seq<Transition>, zeros: seq<byte>)
    requires LowArea(table) && forall i :: 0 <= i < |zeros| ==> zeros[i] == 0
    ensures Run(table, IDLE, zeros) == Some(IDLE)
    decreases |zeros|
  {
    if zeros != [] {
      assert Step(table, IDLE, 0) == IDLE;
      IdleStays(table, zeros[1..]);
    }
  }
}
