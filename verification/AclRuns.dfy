/** Runs of equal entries in signed byte order, and how the counting pass
    finds their number without building the 256-entry table. */
module AclRuns {
  import opened Basics
  import opened AclFormat
  import opened AclTrie

  // ----- runs of a sequence

  /** Positions below `k` where the entry differs from the one before it. */
  function Breaks<T(==)>(g: seq<T>, k: nat): seq<nat>
    requires k <= |g|
  {
    if k <= 1 then [] else Breaks(g, k - 1) + (if g[k - 1] != g[k - 2] then [k - 1] else [])
  }

  /** The entry of each run of g[..k], in order. */
  function Heads<T(==)>(g: seq<T>, k: nat): seq<T>
    requires 1 <= k <= |g|
  {
    if k == 1 then [g[0]] else Heads(g, k - 1) + (if g[k - 1] != g[k - 2] then [g[k - 1]] else [])
  }

  function AllBreaks<T(==)>(g: seq<T>): seq<nat> { Breaks(g, |g|) }

  function AllHeads<T(==)>(g: seq<T>): seq<T>
    requires |g| > 0
  {
    Heads(g, |g|)
  }

  lemma {:induction false} BreaksInRange<T>(g: seq<T>, k: nat)
    requires k <= |g|
    ensures forall i :: 0 <= i < |Breaks(g, k)| ==> 1 <= Breaks(g, k)[i] < k
  {
    if k > 1 {
      BreaksInRange(g, k - 1);
    }
  }

  /** Breaks found early stay first; the ones found later are at `j` or beyond. */
  lemma {:induction false} BreaksExtend<T>(g: seq<T>, j: nat, k: nat)
    requires j <= k <= |g|
    ensures Breaks(g, j) <= Breaks(g, k)
    ensures forall i :: |Breaks(g, j)| <= i < |Breaks(g, k)| ==> Breaks(g, k)[i] >= j
  {
    if j < k {
      BreaksExtend(g, j, k - 1);
    }
  }

  lemma {:induction false} BreaksAscend<T>(g: seq<T>, k: nat)
    requires k <= |g|
    ensures forall i, j :: 0 <= i < j < |Breaks(g, k)| ==> Breaks(g, k)[i] < Breaks(g, k)[j]
  {
    if k > 1 {
      BreaksAscend(g, k - 1);
      BreaksInRange(g, k - 1);
    }
  }

  lemma {:induction false} HeadsEnd<T>(g: seq<T>, k: nat)
    requires 1 <= k <= |g|
    ensures |Heads(g, k)| == |Breaks(g, k)| + 1
    ensures Heads(g, k)[|Breaks(g, k)|] == g[k - 1]
  {
    if k > 1 {
      HeadsEnd(g, k - 1);
    }
  }

  lemma {:induction false} HeadsExtend<T>(g: seq<T>, j: nat, k: nat)
    requires 1 <= j <= k <= |g|
    ensures Heads(g, j) <= Heads(g, k)
  {
    if j < k {
      HeadsExtend(g, j, k - 1);
    }
  }

  /** Looking a position up by the number of breaks at or below it finds its entry. */
  lemma HeadAt<T>(g: seq<T>, p: nat)
    requires p < |g|
    ensures var i := |Breaks(g, p + 1)|;
            i < |AllHeads(g)| && AllHeads(g)[i] == g[p]
  {
    HeadsEnd(g, p + 1);
    HeadsExtend(g, p + 1, |g|);
  }

  /** Two sequences that change at the same places have the same breaks. */
  ghost predicate SameShape<T, U>(g: seq<T>, h: seq<U>) {
    |g| == |h| && forall i :: 1 <= i < |g| ==> (g[i] == g[i - 1] <==> h[i] == h[i - 1])
  }

  lemma {:induction false} SameBreaks<T, U>(g: seq<T>, h: seq<U>, k: nat)
    requires SameShape(g, h) && k <= |g|
    ensures Breaks(g, k) == Breaks(h, k)
  {
    if k > 1 {
      SameBreaks(g, h, k - 1);
    }
  }

  // ----- counting runs from the bit sets

  /** Maximal groups of members (or of non-members) among the first `k` ranks. */
  function Groups(s: set<byte>, one: bool, k: nat): nat
    requires k <= 256
  {
    if k == 0 then 0
    else Groups(s, one, k - 1) + (if GroupStarts(s, one, k - 1) then 1 else 0)
  }

  predicate GroupStarts(s: set<byte>, one: bool, p: nat)
    requires p < 256
  {
    (Rank(p) in s) == one && (p == 0 || (Rank(p - 1) in s) != one)
  }

  function LabelGroups(ptrs: seq<Ptr>, m: nat, k: nat): nat
    requires m <= |ptrs| && k <= 256
  {
    if m == 0 then 0
    else LabelGroups(ptrs, m - 1, k) +
         (if ptrs[m - 1].child.Some? then Groups(ptrs[m - 1].values, true, k) else 0)
  }

  /** What the counting pass computes for a node that is not a match. */
  function Fanout(node: Node): nat {
    Groups(node.values, false, 256) + LabelGroups(node.ptrs, |node.ptrs|, 256)
  }

  /** The deciding pointer for each byte, listed in signed order. */
  function Deciders(ptrs: seq<Ptr>): (g: seq<int>)
    ensures |g| == 256
    ensures forall p :: 0 <= p < 256 ==> g[p] == PtrFor(ptrs, Rank(p))
  {
    seq(256, p requires 0 <= p < 256 => PtrFor(ptrs, Rank(p)))
  }

  lemma TakesIffDecides(ptrs: seq<Ptr>, x: nat, b: byte)
    requires Disjoint(ptrs) && x < |ptrs| && ptrs[x].child.Some?
    ensures b in ptrs[x].values <==> PtrFor(ptrs, b) == x
  {
    var y := PtrFor(ptrs, b);
    assert y >= 0 ==> Takes(ptrs[y], b);
    assert b in ptrs[x].values ==> Takes(ptrs[x], b);
  }

  lemma {:induction false} LabelGroupsStep(ptrs: seq<Ptr>, m: nat, p: nat)
    requires Disjoint(ptrs) && m <= |ptrs| && p < 256
    ensures var g := Deciders(ptrs);
            LabelGroups(ptrs, m, p + 1) ==
            LabelGroups(ptrs, m, p) + (if 0 <= g[p] < m && (p == 0 || g[p - 1] != g[p]) then 1 else 0)
  {
    if m > 0 {
      LabelGroupsStep(ptrs, m - 1, p);
      if ptrs[m - 1].child.Some? {
        TakesIffDecides(ptrs, m - 1, Rank(p));
        if p > 0 {
          TakesIffDecides(ptrs, m - 1, Rank(p - 1));
        }
      } else {
        assert Deciders(ptrs)[p] != m - 1;
      }
    }
  }

  lemma {:induction false} GroupsAreRuns(node: Node, k: nat)
    requires Disjoint(node.ptrs) && IsUnion(node.values, node.ptrs) && 1 <= k <= 256
    ensures Groups(node.values, false, k) + LabelGroups(node.ptrs, |node.ptrs|, k)
         == |Breaks(Deciders(node.ptrs), k)| + 1
  {
    var g := Deciders(node.ptrs);
    var p := k - 1;
    LabelGroupsStep(node.ptrs, |node.ptrs|, p);
    assert Rank(p) in node.values <==> g[p] >= 0;
    if p == 0 {
      NoGroupsYet(node.ptrs, |node.ptrs|);
    } else {
      assert Rank(p - 1) in node.values <==> g[p - 1] >= 0;
      GroupsAreRuns(node, p);
    }
  }

  lemma {:induction false} NoGroupsYet(ptrs: seq<Ptr>, m: nat)
    requires m <= |ptrs|
    ensures LabelGroups(ptrs, m, 0) == 0
  {
    if m > 0 {
      NoGroupsYet(ptrs, m - 1);
    }
  }

  /** The fanout counted from the bit sets is the number of runs that the
      generating pass will write. */
  lemma FanoutCountsRuns(node: Node)
    requires Disjoint(node.ptrs) && IsUnion(node.values, node.ptrs)
    ensures Fanout(node) == |AllBreaks(Deciders(node.ptrs))| + 1
  {
    GroupsAreRuns(node, 256);
  }

  // ----- the counting loops

  /** One loop per half of the signed order; `last` starts as the opposite bit. */
  method CountSequentialGroups(bits: set<byte>, one: bool) returns (ranges: nat)
    ensures ranges == Groups(bits, one, 256)
  {
    ranges := 0;
    var last := !one;
    var n := 128;
    while n < 256
      invariant 128 <= n <= 256
      invariant ranges == Groups(bits, one, n - 128)
      invariant last == if n == 128 then !one else (n - 1 in bits)
    {
      if n in bits {
        if one && !last { ranges := ranges + 1; }
        last := true;
      } else {
        if !one && last { ranges := ranges + 1; }
        last := false;
      }
      n := n + 1;
    }
    n := 0;
    while n < 128
      invariant 0 <= n <= 128
      invariant ranges == Groups(bits, one, n + 128)
      invariant last == if n == 0 then 255 in bits else (n - 1 in bits)
    {
      if n in bits {
        if one && !last { ranges := ranges + 1; }
        last := true;
      } else {
        if !one && last { ranges := ranges + 1; }
        last := false;
      }
      n := n + 1;
    }
  }

  method CountFanout(node: Node, cached: nat) returns (fanout: nat)
    ensures fanout == if cached != 0 then cached else Fanout(node)
  {
    if cached != 0 {
      return cached;
    }
    fanout := CountSequentialGroups(node.values, false);
    for n := 0 to |node.ptrs|
      invariant fanout == Groups(node.values, false, 256) + LabelGroups(node.ptrs, n, 256)
    {
      if node.ptrs[n].child.Some? {
        var groups := CountSequentialGroups(node.ptrs[n].values, true);
        fanout := fanout + groups;
      }
    }
  }
}
