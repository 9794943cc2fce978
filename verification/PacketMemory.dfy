/** Packet memory as bytes, written eight at a time. */
module PacketMemory {
  import opened SwapWords

  /** Writes `b` over `m` from `o` on. */
  function Overwrite<T>(m: seq<T>, o: nat, b: seq<T>): (r: seq<T>)
    requires o + |b| <= |m|
    ensures |r| == |m|
  {
    m[..o] + b + m[o + |b|..]
  }

  method LoadEight<T>(a: array<T>, o: nat) returns (e: Eight<T>)
    requires o + 8 <= a.Length
    ensures e.ToSeq() == a[o..o + 8]
  {
    e := Eight(a[o], a[o + 1], a[o + 2], a[o + 3], a[o + 4], a[o + 5], a[o + 6], a[o + 7]);
  }

  method StoreEight<T>(a: array<T>, o: nat, e: Eight<T>)
    requires o + 8 <= a.Length
    modifies a
    ensures a[..] == Overwrite(old(a[..]), o, e.ToSeq())
  {
    var s := e.ToSeq();
    forall k | 0 <= k < 8 {
      a[o + k] := s[k];
    }
  }
}
