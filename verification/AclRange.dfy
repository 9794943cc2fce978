/** Range ("quad") nodes: up to five transitions separated by four signed
    boundaries. */
module AclRange {
  import opened Basics
  import opened AclFormat
  import opened AclRuns

  /** The 256-entry table listed in signed order. */
  function Signed<T>(dfa: seq<T>): (g: seq<T>)
    requires |dfa| == 256
    ensures |g| == 256
    ensures forall p :: 0 <= p < 256 ==> g[p] == dfa[Rank(p)]
  {
    seq(256, p requires 0 <= p < 256 => dfa[Rank(p)])
  }

  /** Boundary `i` is the last byte of run `i`; unused ones are the top value. */
  ghost predicate Bounds(breaks: seq<nat>, bounds: seq<byte>) {
    && |breaks| <= 4
    && |bounds| == 4
    && forall i :: 0 <= i < 4 ==>
         if i < |breaks| then 1 <= breaks[i] < 256 && bounds[i] == Rank(breaks[i] - 1)
         else bounds[i] == 0x7f
  }

  function ToLanes(s: seq<byte>): Lanes
    requires |s| == 4
  {
    Lanes(s[0], s[1], s[2], s[3])
  }

  /** The boundary lookup lands on the run that holds the byte. */
  lemma RangeLookup<T>(g: seq<T>, bounds: seq<byte>, b: byte)
    requires |g| == 256 && Bounds(AllBreaks(g), bounds)
    ensures RangeOffset(ToLanes(bounds), b) == |Breaks(g, Rank(b) + 1)|
    ensures |Breaks(g, Rank(b) + 1)| < |AllHeads(g)|
    ensures AllHeads(g)[RangeOffset(ToLanes(bounds), b)] == g[Rank(b)]
  {
    var p: nat := Rank(b);
    var all, low := AllBreaks(g), Breaks(g, p + 1);
    BreaksExtend(g, p + 1, |g|);
    BreaksInRange(g, p + 1);
    forall i | 0 <= i < 4
      ensures Beyond(bounds[i], b) == if i < |low| then 1 else 0
    {
      if i < |low| {
        assert all[i] == low[i];
      }
    }
    HeadAt(g, p);
  }

  ghost predicate Marks(breaks: seq<nat>, bounds: seq<byte>) {
    && |bounds| == |breaks|
    && forall i :: 0 <= i < |bounds| ==> 1 <= breaks[i] < 256 && bounds[i] == Rank(breaks[i] - 1)
  }

  /** State of the scan after positions 0..p-1 of the signed order. */
  ghost predicate Scanned<T>(g: seq<T>, p: nat, bounds: seq<byte>, written: seq<T>)
    requires 1 <= p <= |g|
  {
    Marks(Breaks(g, p), bounds) && written == Heads(g, p)
  }

  /** One step of the scan: position `p` either continues the current run or
      closes it with a boundary and stores the next entry. */
  method ScanEntry<T(==)>(ghost g: seq<T>, ghost p: nat, x: byte, entry: T, index: T, bounds: seq<byte>,
                          table: array<T>, base: nat)
    returns (index': T, bounds': seq<byte>)
    requires |g| == 256 && 1 <= p < 256 && x == Rank(p) && entry == g[p] && index == g[p - 1]
    requires base + |AllHeads(g)| <= table.Length && |Heads(g, p)| == |bounds| + 1 <= |AllHeads(g)|
    requires Scanned(g, p, bounds, table[base..base + |bounds| + 1])
    modifies table
    ensures index' == g[p]
    ensures |Heads(g, p + 1)| == |bounds'| + 1 <= |AllHeads(g)|
    ensures Scanned(g, p + 1, bounds', table[base..base + |bounds'| + 1])
    ensures forall i :: 0 <= i < table.Length && !(base <= i < base + |AllHeads(g)|) ==> table[i] == old(table[i])
  {
    index', bounds' := index, bounds;
    var boundary: byte := (x + 255) % 256;
    assert boundary == Rank(p - 1);
    HeadsExtend(g, p + 1, |g|);
    if entry != index {
      index' := entry;
      table[base + |bounds| + 1] := entry;
      assert table[base..base + |bounds| + 1] == old(table[base..base + |bounds| + 1]);
      bounds' := bounds + [boundary];
      assert table[base..base + |bounds'| + 1] == Heads(g, p) + [entry];
    }
  }

  /** Writes the entry of each run to `table` from `base` on, scanning 0x80..0xff
      and then 0x00..0x7f, and returns the boundaries between the runs. */
  method FillRanges<T(==)>(dfa: seq<T>, table: array<T>, base: nat) returns (bounds: seq<byte>)
    requires |dfa| == 256 && |AllBreaks(Signed(dfa))| <= 4
    requires base + |AllHeads(Signed(dfa))| <= table.Length
    modifies table
    ensures Bounds(AllBreaks(Signed(dfa)), bounds)
    ensures table[base..base + |AllHeads(Signed(dfa))|] == AllHeads(Signed(dfa))
    ensures forall i :: 0 <= i < table.Length && !(base <= i < base + |AllHeads(Signed(dfa))|) ==>
              table[i] == old(table[i])
  {
    ghost var g := Signed(dfa);
    var index := dfa[128];
    HeadsExtend(g, 1, |g|);
    table[base] := index;
    assert table[base..base + 1] == Heads(g, 1);
    bounds := [];
    for x := 129 to 256
      invariant index == g[x - 129] && |Heads(g, x - 128)| == |bounds| + 1 <= |AllHeads(g)|
      invariant Scanned(g, x - 128, bounds, table[base..base + |bounds| + 1])
      invariant forall i :: 0 <= i < table.Length && !(base <= i < base + |AllHeads(g)|) ==> table[i] == old(table[i])
    {
      index, bounds := ScanEntry(g, x - 128, x, dfa[x], index, bounds, table, base);
    }
    for x := 0 to 128
      invariant index == g[x + 127] && |Heads(g, x + 128)| == |bounds| + 1 <= |AllHeads(g)|
      invariant Scanned(g, x + 128, bounds, table[base..base + |bounds| + 1])
      invariant forall i :: 0 <= i < table.Length && !(base <= i < base + |AllHeads(g)|) ==> table[i] == old(table[i])
    {
      index, bounds := ScanEntry(g, x + 128, x, dfa[x], index, bounds, table, base);
    }
    ghost var found := bounds;
    HeadsEnd(g, |g|);
    while |bounds| < 4
      invariant |found| <= |bounds| <= 4 && bounds[..|found|] == found
      invariant forall i :: |found| <= i < |bounds| ==> bounds[i] == 0x7f
    {
      bounds := bounds + [0x7f];
    }
    assert forall i :: 0 <= i < |found| ==> bounds[i] == found[i];
  }
}
