/** The build-time trie: a pool of nodes, each with pointers labelled by byte
    sets, and the walk that gives the trie its meaning. */
module AclTrie {
  import opened Basics

  datatype Record = Record(result: nat, priority: int)

  /** A labelled pointer; `child` is an index into the pool, None is NULL. */
  datatype Ptr = Ptr(values: set<byte>, child: Option<nat>)

  datatype Node = Node(values: set<byte>, ptrs: seq<Ptr>, isMatch: bool, record: Record)

  type Pool = seq<Node>

  predicate Takes(p: Ptr, b: byte) {
    p.child.Some? && b in p.values
  }

  /** The pointer that decides byte `b`: the last one that takes it, -1 if none. */
  function PtrFor(ptrs: seq<Ptr>, b: byte): (x: int)
    ensures -1 <= x < |ptrs|
    ensures x >= 0 ==> Takes(ptrs[x], b)
    ensures forall y :: x < y < |ptrs| ==> !Takes(ptrs[y], b)
  {
    if ptrs == [] then -1
    else if Takes(ptrs[|ptrs| - 1], b) then |ptrs| - 1
    else PtrFor(ptrs[..|ptrs| - 1], b)
  }

  ghost predicate Disjoint(ptrs: seq<Ptr>) {
    forall i, j :: 0 <= i < j < |ptrs| && ptrs[i].child.Some? && ptrs[j].child.Some? ==>
      ptrs[i].values !! ptrs[j].values && ptrs[i].child != ptrs[j].child
  }

  /** `values` is the union of the labels of the non-NULL pointers. */
  ghost predicate IsUnion(values: set<byte>, ptrs: seq<Ptr>) {
    forall b: byte :: b in values <==> exists x :: 0 <= x < |ptrs| && Takes(ptrs[x], b)
  }

  ghost predicate WellFormedNode(node: Node, size: nat) {
    && |node.ptrs| < 0x8000_0000
    && Disjoint(node.ptrs)
    && IsUnion(node.values, node.ptrs)
    && (forall x :: 0 <= x < |node.ptrs| && node.ptrs[x].child.Some? ==>
          node.ptrs[x].child.value < size && node.ptrs[x].values != {})
    && (node.ptrs == [] ==> node.isMatch)
    && (node.isMatch ==> forall x :: 0 <= x < |node.ptrs| ==> node.ptrs[x].child.None?)
  }

  /** Every pointer leads into the pool, which is all a walk asks for. */
  ghost predicate Children(pool: Pool) {
    forall n, x :: 0 <= n < |pool| && 0 <= x < |pool[n].ptrs| && pool[n].ptrs[x].child.Some? ==>
      pool[n].ptrs[x].child.value < |pool|
  }

  ghost predicate WellFormed(pool: Pool, roots: seq<nat>) {
    && Children(pool)
    && (forall n :: 0 <= n < |pool| ==> WellFormedNode(pool[n], |pool|))
    && (forall t :: 0 <= t < |roots| ==> roots[t] < |pool| && !pool[roots[t]].isMatch)
    && (forall n, x, t :: 0 <= n < |pool| && 0 <= x < |pool[n].ptrs| && 0 <= t < |roots| ==>
          pool[n].ptrs[x].child != Some(roots[t]))
  }

  /** The node reached from `n` on byte `b`. */
  function Next(pool: Pool, n: nat, b: byte): Option<nat>
    requires n < |pool|
  {
    var x := PtrFor(pool[n].ptrs, b);
    if x < 0 then None else pool[n].ptrs[x].child
  }

  /** In a well-formed node the walk does not depend on pointer order: `Next`
      follows the one pointer whose label holds the byte, and is stuck
      exactly when the node's `values` lack it. */
  lemma NextIsTheLabelledPointer(pool: Pool, n: nat, b: byte)
    requires n < |pool| && WellFormedNode(pool[n], |pool|)
    ensures forall x :: 0 <= x < |pool[n].ptrs| && Takes(pool[n].ptrs[x], b) ==>
      Next(pool, n, b) == pool[n].ptrs[x].child
    ensures Next(pool, n, b).None? <==> b !in pool[n].values
  {
    var ptrs := pool[n].ptrs;
    var d := PtrFor(ptrs, b);
    assert d >= 0 ==> Takes(ptrs[d], b);
    forall x | 0 <= x < |ptrs| && Takes(ptrs[x], b) ensures Next(pool, n, b) == ptrs[x].child {
      assert d >= x && Takes(ptrs[d], b);
    }
  }

  /** Walking the trie over a byte string; None once no pointer takes a byte. */
  function Walk(pool: Pool, n: nat, s: seq<byte>): (r: Option<nat>)
    requires Children(pool) && n < |pool|
    ensures r.Some? ==> r.value < |pool|
    decreases |s|
  {
    if s == [] then Some(n)
    else
      var next := Next(pool, n, s[0]);
      if next.None? then None else Walk(pool, next.value, s[1..])
  }
}
