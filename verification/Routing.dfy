/** MPLS encapsulation: building a route's slabs and writing them over a packet. */
module Routing {
  import opened Basics
  import opened SwapWords
  import opened MplsBits
  import opened MplsLayout

  /** `sizeof(struct rte_mbuf)`: the packet buffer follows the mbuf. */
  const MBUF := 128

  // ----- the header, as it should be on the wire

  /** The label stack: entries in order, bottom of stack on the last only. */
  function Stack(labels: seq<bv64>, exp: bv64): (b: seq<bv8>)
    ensures |b| == 4 * |labels|
  {
    if labels == [] then []
    else Entry(labels[0], exp, if |labels| == 1 then 1 else 0) + Stack(labels[1..], exp)
  }

  /** The part of the header the routing handler writes itself: source address and ethertype, then the labels. */
  function Upper(source: seq<bv8>, labels: seq<bv64>, exp: bv64): (h: seq<bv8>)
    ensures |h| == |source| + 4 * |labels|
  {
    source + Stack(labels, exp)
  }

  function Header(dst: seq<bv8>, source: seq<bv8>, labels: seq<bv64>, exp: bv64): seq<bv8> {
    dst + Upper(source, labels, exp)
  }

  /** A stretch of memory in three parts. */
  lemma Parts<T>(after: seq<T>, low: nat, high: nat, a: seq<T>, b: seq<T>, c: seq<T>)
    requires low <= high <= |after| && after[low..high] == a + (b + c)
    ensures var o := low + |a|; var q := o + |b|;
      && q <= high && after[low..o] == a && after[o..q] == b && after[q..high] == c
  {
    var h := after[low..high];
    assert |h| == |a| + |b| + |c|;
    forall j | 0 <= j < |a| ensures after[low + j] == a[j] {
      assert h[j] == a[j];
    }
    forall j | 0 <= j < |b| ensures after[low + |a| + j] == b[j] {
      assert h[|a| + j] == b[j];
    }
    forall j | 0 <= j < |c| ensures after[low + |a| + |b| + j] == c[j] {
      assert h[|a| + |b| + j] == c[j];
    }
  }

  lemma SubPart<T>(after: seq<T>, low: nat, high: nat, c: seq<T>, o: nat)
    requires low <= high <= |after| && after[low..high] == c && o + 4 <= |c|
    ensures low + o + 4 <= |after| && after[low + o..low + o + 4] == c[o..o + 4]
  {
    assert c == c[..o] + (c[o..o + 4] + c[o + 4..]);
    Parts(after, low, high, c[..o], c[o..o + 4], c[o + 4..]);
  }

  /** Where the parts of a header are: destination, source and ethertype, labels. */
  lemma WireParts(after: seq<bv8>, ip: nat, dst: seq<bv8>, source: seq<bv8>, labels: seq<bv64>, exp: bv64)
    requires |dst| == 6 && |source| == 8 && 4 * |labels| + 14 <= ip <= |after|
    requires after[ip - (4 * |labels| + 14)..ip] == Header(dst, source, labels, exp)
    ensures var o := ip - 4 * |labels|;
      after[o - 14..o - 8] == dst && after[o - 8..o] == source && after[o..ip] == Stack(labels, exp)
  {
    Parts(after, ip - (4 * |labels| + 14), ip, dst, source, Stack(labels, exp));
  }

  /** So each label of a packet is in four bytes that carry it. */
  lemma LabelPart(after: seq<bv8>, ip: nat, labels: seq<bv64>, exp: bv64, i: nat)
    requires i < |labels| && 4 * |labels| <= ip <= |after| && after[ip - 4 * |labels|..ip] == Stack(labels, exp)
    ensures var o := ip - 4 * |labels| + 4 * i; Carries(after[o..o + 4], labels[i], exp, i == |labels| - 1)
  {
    StackCarries(labels, exp, i);
    SubPart(after, ip - 4 * |labels|, ip, Stack(labels, exp), 4 * i);
  }

  // ----- the slabs of a route

  function Slab0(labels: seq<bv64>): bv64
    requires 1 <= |labels| <= 4
  {
    if |labels| <= 2 then 0
    else if |labels| == 3 then Slab(labels[1], 0, labels[2], 1)
    else Slab(labels[2], 0, labels[3], 1)
  }

  function Slab1(labels: seq<bv64>): bv64
    requires 1 <= |labels| <= 4
  {
    if |labels| == 1 then Slab(0, 0, labels[0], 1)
    else if |labels| == 2 then Slab(labels[0], 0, labels[1], 1)
    else if |labels| == 3 then Slab(0, 0, labels[0], 0)
    else Slab(labels[0], 0, labels[1], 0)
  }

  function Shade(w: bv64, color: Option<bv64>): bv64 { if color.None? then w else w | Mark(color.value) }

  function Exp(color: Option<bv64>): bv64 { if color.None? then 0 else color.value }

  lemma ShadedBytes(a: bv64, sa: bv64, b: bv64, sb: bv64, color: Option<bv64>)
    ensures Unpack(Shade(Slab(a, sa, b, sb), color)).ToSeq() == Entry(a, Exp(color), sa) + Entry(b, Exp(color), sb)
  {
    if color.None? {
      PlainBytes(a, sa, b, sb);
    } else {
      MarkedBytes(a, sa, b, sb, color.value);
    }
  }

  lemma StackCons(a: bv64, rest: seq<bv64>, exp: bv64)
    requires rest != []
    ensures Stack([a] + rest, exp) == Entry(a, exp, 0) + Stack(rest, exp)
  {
    assert ([a] + rest)[1..] == rest;
  }

  /** Label `i` of the stack is four bytes that carry it, and only the last is the bottom of the stack. */
  lemma {:induction false} StackCarries(labels: seq<bv64>, exp: bv64, i: nat)
    requires i < |labels|
    ensures Carries(Stack(labels, exp)[4 * i..4 * i + 4], labels[i], exp, i == |labels| - 1)
    decreases |labels|
  {
    var first := Entry(labels[0], exp, if |labels| == 1 then 1 else 0);
    var rest := Stack(labels[1..], exp);
    if i == 0 {
      EntryCarries(labels[0], exp, |labels| == 1);
      assert (first + rest)[0..4] == first;
    } else {
      StackCarries(labels[1..], exp, i - 1);
      assert (first + rest)[4 * i..4 * i + 4] == rest[4 * (i - 1)..4 * (i - 1) + 4];
    }
  }

  lemma StackOne(a: bv64, exp: bv64)
    ensures Stack([a], exp) == Entry(a, exp, 1)
  {
    assert [a][1..] == [];
  }

  lemma StackTwo(a: bv64, b: bv64, exp: bv64)
    ensures Stack([a, b], exp) == Entry(a, exp, 0) + Entry(b, exp, 1)
  {
    StackOne(b, exp);
    StackCons(a, [b], exp);
    assert [a] + [b] == [a, b];
  }

  lemma StackThree(a: bv64, b: bv64, c: bv64, exp: bv64)
    ensures Stack([a, b, c], exp) == Entry(a, exp, 0) + (Entry(b, exp, 0) + Entry(c, exp, 1))
  {
    StackTwo(b, c, exp);
    StackCons(a, [b, c], exp);
    assert [a] + [b, c] == [a, b, c];
  }

  lemma StackFour(a: bv64, b: bv64, c: bv64, d: bv64, exp: bv64)
    ensures Stack([a, b, c, d], exp) == (Entry(a, exp, 0) + Entry(b, exp, 0)) + (Entry(c, exp, 0) + Entry(d, exp, 1))
  {
    StackThree(b, c, d, exp);
    StackCons(a, [b, c, d], exp);
    assert [a] + [b, c, d] == [a, b, c, d];
    Associate(Entry(a, exp, 0), Entry(b, exp, 0), Entry(c, exp, 0) + Entry(d, exp, 1));
  }

  lemma RightPart<T>(a: seq<T>, b: seq<T>)
    ensures (a + b)[|a|..] == b
  {
  }

  /** The bytes of the slabs that stay visible. */
  ghost predicate Shows(labels: seq<bv64>, color: Option<bv64>)
    requires 1 <= |labels| <= 4
  {
    Visible(|labels|, Unpack(Shade(Slab0(labels), color)).ToSeq(), Unpack(Shade(Slab1(labels), color)).ToSeq())
    == Stack(labels, Exp(color))
  }

  lemma ShowsOne(labels: seq<bv64>, color: Option<bv64>)
    requires |labels| == 1
    ensures Shows(labels, color)
  {
    var e := Exp(color);
    ShadedBytes(0, 0, labels[0], 1, color);
    RightPart(Entry(0, e, 0), Entry(labels[0], e, 1));
    StackOne(labels[0], e);
    assert labels == [labels[0]];
  }

  lemma ShowsTwo(labels: seq<bv64>, color: Option<bv64>)
    requires |labels| == 2
    ensures Shows(labels, color)
  {
    ShadedBytes(labels[0], 0, labels[1], 1, color);
    StackTwo(labels[0], labels[1], Exp(color));
    assert labels == [labels[0], labels[1]];
  }

  lemma ShowsThree(labels: seq<bv64>, color: Option<bv64>)
    requires |labels| == 3
    ensures Shows(labels, color)
  {
    var e := Exp(color);
    ShadedBytes(0, 0, labels[0], 0, color);
    RightPart(Entry(0, e, 0), Entry(labels[0], e, 0));
    ShadedBytes(labels[1], 0, labels[2], 1, color);
    StackThree(labels[0], labels[1], labels[2], e);
    assert labels == [labels[0], labels[1], labels[2]];
  }

  lemma ShowsFour(labels: seq<bv64>, color: Option<bv64>)
    requires |labels| == 4
    ensures Shows(labels, color)
  {
    ShadedBytes(labels[0], 0, labels[1], 0, color);
    ShadedBytes(labels[2], 0, labels[3], 1, color);
    StackFour(labels[0], labels[1], labels[2], labels[3], Exp(color));
    assert labels == [labels[0], labels[1], labels[2], labels[3]];
  }

  lemma ShowsStack(labels: seq<bv64>, color: Option<bv64>)
    requires 1 <= |labels| <= 4
    ensures Shows(labels, color)
  {
    if |labels| == 1 {
      ShowsOne(labels, color);
    } else if |labels| == 2 {
      ShowsTwo(labels, color);
    } else if |labels| == 3 {
      ShowsThree(labels, color);
    } else {
      ShowsFour(labels, color);
    }
  }
}
