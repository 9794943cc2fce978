/** The 256-entry table of a node and the sharing of equal 64-entry groups. */
module AclDfa {
  import opened Basics
  import opened AclTrie

  /** Entry of byte `b` when pointer `x` is written as `names[x]`. */
  function Entry<T>(ptrs: seq<Ptr>, names: seq<T>, none: T, b: byte): T
    requires |names| == |ptrs|
  {
    var x := PtrFor(ptrs, b);
    if x < 0 then none else names[x]
  }

  lemma EntryOfPrefix<T>(ptrs: seq<Ptr>, names: seq<T>, none: T, b: byte, x: nat)
    requires |names| == |ptrs| && x < |ptrs|
    ensures Entry(ptrs[..x + 1], names[..x + 1], none, b)
         == if Takes(ptrs[x], b) then names[x] else Entry(ptrs[..x], names[..x], none, b)
  {
    assert ptrs[..x + 1][..x] == ptrs[..x];
    assert names[..x + 1][..x] == names[..x];
  }

  /** Fills pointer by pointer, so a later pointer overwrites an earlier one.
      `names[x]` is what is stored for pointer `x`: its number in the
      unresolved pass, its child's transition in the resolved pass. */
  method FillDfa<T(0)>(ptrs: seq<Ptr>, names: seq<T>, none: T) returns (dfa: array<T>)
    requires |names| == |ptrs|
    ensures fresh(dfa) && dfa.Length == 256
    ensures forall b: byte :: dfa[b] == Entry(ptrs, names, none, b)
  {
    dfa := new T[256];
    for n := 0 to 256
      invariant forall b: byte :: b < n ==> dfa[b] == none
    {
      dfa[n] := none;
    }
    for x := 0 to |ptrs|
      invariant forall b: byte :: dfa[b] == Entry(ptrs[..x], names[..x], none, b)
    {
      ghost var before := dfa[..];
      forall b: byte
        ensures Entry(ptrs[..x + 1], names[..x + 1], none, b)
             == if Takes(ptrs[x], b) then names[x] else before[b]
      {
        EntryOfPrefix(ptrs, names, none, b, x);
        assert before[b] == dfa[b];
      }
      if ptrs[x].child.Some? {
        for n := 0 to 256
          invariant forall b: byte :: b < n ==> dfa[b] == Entry(ptrs[..x + 1], names[..x + 1], none, b)
          invariant forall b: byte :: n <= b ==> dfa[b] == before[b]
        {
          if n in ptrs[x].values {
            dfa[n] := names[x];
          }
        }
      }
    }
    assert ptrs[..|ptrs|] == ptrs && names[..|ptrs|] == names;
  }

  /** Entry `k` of the 64-entry group `i`. */
  function InGroup<T>(g: seq<T>, i: int, k: int): T
    requires |g| == 256 && 0 <= i < 4 && 0 <= k < 64
  {
    g[i * 64 + k]
  }

  predicate SameGroup<T(==)>(g: seq<T>, i: int, j: int)
    requires |g| == 256 && 0 <= i < 4 && 0 <= j < 4
  {
    forall k :: 0 <= k < 64 ==> InGroup(g, i, k) == InGroup(g, j, k)
  }

  /** `group` numbers the distinct groups among the first `n` in order of appearance. */
  ghost predicate Numbers<T>(g: seq<T>, group: seq<nat>, count: nat, n: nat)
    requires |g| == 256 && n <= 4
  {
    && |group| == n
    && count <= n
    && (n > 0 ==> count > 0)
    && (forall i :: 0 <= i < n ==> group[i] <= i && group[i] < count)
    && (forall i, j :: 0 <= i < n && 0 <= j < n ==> (group[i] == group[j] <==> SameGroup(g, i, j)))
    && (forall v :: 0 <= v < count ==> v in group)
  }

  lemma NumbersOld<T>(g: seq<T>, group: seq<nat>, count: nat, n: nat, j: nat)
    requires |g| == 256 && n < 4 && j < n && Numbers(g, group, count, n) && SameGroup(g, n, j)
    ensures Numbers(g, group + [group[j]], count, n + 1)
  {
    var group' := group + [group[j]];
    forall i | 0 <= i < n
      ensures group'[i] == group'[n] <==> SameGroup(g, i, n)
      ensures group'[i] == group'[n] <==> SameGroup(g, n, i)
    {
      assert SameGroup(g, i, j) <==> SameGroup(g, i, n);
    }
  }

  lemma NumbersNew<T>(g: seq<T>, group: seq<nat>, count: nat, n: nat)
    requires |g| == 256 && n < 4 && Numbers(g, group, count, n)
    requires forall j :: 0 <= j < n ==> !SameGroup(g, n, j)
    ensures Numbers(g, group + [count], count + 1, n + 1)
  {
    forall i | 0 <= i < n
      ensures !SameGroup(g, i, n)
    {
      if SameGroup(g, i, n) {
        assert SameGroup(g, n, i);
      }
    }
  }

  method CountGroups<T(==)>(g: seq<T>) returns (group: seq<nat>, count: nat)
    requires |g| == 256
    ensures Numbers(g, group, count, 4)
  {
    group := [];
    count := 0;
    for i := 0 to 4
      invariant Numbers(g, group, count, i)
    {
      var j := 0;
      while j < i && !SameGroup(g, i, j)
        invariant 0 <= j <= i
        invariant forall a :: 0 <= a < j ==> !SameGroup(g, i, a)
      {
        j := j + 1;
      }
      if j < i {
        NumbersOld(g, group, count, i, j);
        group := group + [group[j]];
      } else {
        NumbersNew(g, group, count, i);
        group := group + [count];
        count := count + 1;
      }
    }
  }

  /** Where entry `b` lives in a node whose groups are placed by `group`. */
  function Place(group: seq<nat>, b: byte): nat
    requires |group| == 4
  {
    group[b / 64] * 64 + b % 64
  }

  /** Copies each group of `src` to its shared place in `table`. */
  method FillGroups<T>(group: seq<nat>, count: nat, src: seq<T>, table: array<T>, base: nat)
    requires |src| == 256 && |group| == 4 && base + count * 64 <= table.Length
    requires forall i :: 0 <= i < 4 ==> group[i] < count
    requires forall i, j :: 0 <= i < 4 && 0 <= j < 4 && group[i] == group[j] ==> SameGroup(src, i, j)
    modifies table
    ensures forall b: byte :: table[base + Place(group, b)] == src[b]
    ensures forall i :: 0 <= i < table.Length && !(base <= i < base + count * 64) ==> table[i] == old(table[i])
  {
    for i := 0 to 4
      invariant forall b: byte :: b < i * 64 ==> table[base + Place(group, b)] == src[b]
      invariant forall i :: 0 <= i < table.Length && !(base <= i < base + count * 64) ==> table[i] == old(table[i])
    {
      for k := 0 to 64
        invariant forall b: byte :: b < i * 64 + k ==> table[base + Place(group, b)] == src[b]
        invariant forall i :: 0 <= i < table.Length && !(base <= i < base + count * 64) ==> table[i] == old(table[i])
      {
        table[base + group[i] * 64 + k] := src[i * 64 + k];
        forall b: byte | b < i * 64 + k && Place(group, b) == group[i] * 64 + k
          ensures src[b] == src[i * 64 + k]
        {
          assert SameGroup(src, b / 64, i);
          assert InGroup(src, b / 64, k) == InGroup(src, i, k);
        }
      }
    }
  }
}
