/** Masked 64-bit stores into packet memory. */
module SwapWords {
  datatype Eight<T> = Eight(b0: T, b1: T, b2: T, b3: T, b4: T, b5: T, b6: T, b7: T) {
    function ToSeq(): (s: seq<T>)
      ensures |s| == 8
    {
       [b0, b1, b2, b3, b4, b5, b6, b7]
    }
  }

  /** The little-endian word of eight bytes. */
  function Pack(e: Eight<bv8>): bv64 {
    (e.b0 as bv64) | (e.b1 as bv64 << 8) | (e.b2 as bv64 << 16) | (e.b3 as bv64 << 24)
    | (e.b4 as bv64 << 32) | (e.b5 as bv64 << 40) | (e.b6 as bv64 << 48) | (e.b7 as bv64 << 56)
  }

  function Low(w: bv64): bv8 { (w & 0xff) as bv8 }

  /** The eight bytes that storing a word writes. */
  function Unpack(w: bv64): Eight<bv8> {
    Eight(Low(w), Low(w >> 8), Low(w >> 16), Low(w >> 24), Low(w >> 32), Low(w >> 40), Low(w >> 48), Low(w >> 56))
  }

  lemma UnpackPack(e: Eight<bv8>)
    ensures Unpack(Pack(e)) == e
  {
    var w := Pack(e);
    assert Low(w) == e.b0;
    assert Low(w >> 8) == e.b1;
    assert Low(w >> 16) == e.b2;
    assert Low(w >> 24) == e.b3;
    assert Low(w >> 32) == e.b4;
    assert Low(w >> 40) == e.b5;
    assert Low(w >> 48) == e.b6;
    assert Low(w >> 56) == e.b7;
  }

  const ONES: bv64 := 0xffff_ffff_ffff_ffff

  /** `RTE_LEN2MASK` of `n` whole bytes. */
  function LowMask(n: nat): bv64
    requires 1 <= n <= 8
  {
    if n == 1 then ONES >> 56 else if n == 2 then ONES >> 48 else if n == 3 then ONES >> 40
    else if n == 4 then ONES >> 32 else if n == 5 then ONES >> 24 else if n == 6 then ONES >> 16
    else if n == 7 then ONES >> 8 else ONES
  }

  /** The two new words of a masked swap. */
  function First(f0: bv64, f1: bv64, mask: bv64): bv64 { (f0 & !mask) + (f1 & mask) }

  function Second(f0: bv64, f1: bv64, mask: bv64): bv64 { (f0 & mask) + (f1 & !mask) }

  /** The halves share no bit, so adding them is joining them. */
  lemma SumIsJoin(f0: bv64, f1: bv64, mask: bv64)
    ensures First(f0, f1, mask) == (f0 & !mask) | (f1 & mask)
    ensures Second(f0, f1, mask) == First(f1, f0, mask)
  {
  }

  lemma First1(b: Eight<bv8>, c: Eight<bv8>)
    ensures First(Pack(b), Pack(c), ONES >> 56) == Pack(b.(b0 := c.b0))
  {
    SumIsJoin(Pack(b), Pack(c), ONES >> 56);
  }

  lemma First2(b: Eight<bv8>, c: Eight<bv8>)
    ensures First(Pack(b), Pack(c), ONES >> 48) == Pack(b.(b0 := c.b0, b1 := c.b1))
  {
    SumIsJoin(Pack(b), Pack(c), ONES >> 48);
  }

  lemma First3(b: Eight<bv8>, c: Eight<bv8>)
    ensures First(Pack(b), Pack(c), ONES >> 40) == Pack(b.(b0 := c.b0, b1 := c.b1, b2 := c.b2))
  {
    SumIsJoin(Pack(b), Pack(c), ONES >> 40);
  }

  lemma First4(b: Eight<bv8>, c: Eight<bv8>)
    ensures First(Pack(b), Pack(c), ONES >> 32) == Pack(b.(b0 := c.b0, b1 := c.b1, b2 := c.b2, b3 := c.b3))
  {
    SumIsJoin(Pack(b), Pack(c), ONES >> 32);
  }

  lemma First5(b: Eight<bv8>, c: Eight<bv8>)
    ensures First(Pack(b), Pack(c), ONES >> 24) == Pack(b.(b0 := c.b0, b1 := c.b1, b2 := c.b2, b3 := c.b3, b4 := c.b4))
  {
    SumIsJoin(Pack(b), Pack(c), ONES >> 24);
  }

  lemma First6(b: Eight<bv8>, c: Eight<bv8>)
    ensures First(Pack(b), Pack(c), ONES >> 16) ==
      Pack(b.(b0 := c.b0, b1 := c.b1, b2 := c.b2, b3 := c.b3, b4 := c.b4, b5 := c.b5))
  {
    SumIsJoin(Pack(b), Pack(c), ONES >> 16);
  }

  lemma First7(b: Eight<bv8>, c: Eight<bv8>)
    ensures First(Pack(b), Pack(c), ONES >> 8) ==
      Pack(b.(b0 := c.b0, b1 := c.b1, b2 := c.b2, b3 := c.b3, b4 := c.b4, b5 := c.b5, b6 := c.b6))
  {
    SumIsJoin(Pack(b), Pack(c), ONES >> 8);
  }

  /** The low `n` bytes of `c`, the rest of `b`. */
  function Mix<T>(n: nat, b: Eight<T>, c: Eight<T>): Eight<T> {
    Eight(if 0 < n then c.b0 else b.b0, if 1 < n then c.b1 else b.b1,
          if 2 < n then c.b2 else b.b2, if 3 < n then c.b3 else b.b3,
          if 4 < n then c.b4 else b.b4, if 5 < n then c.b5 else b.b5,
          if 6 < n then c.b6 else b.b6, if 7 < n then c.b7 else b.b7)
  }

  lemma FirstIsMix(n: nat, b: Eight<bv8>, c: Eight<bv8>)
    requires 1 <= n <= 8
    ensures First(Pack(b), Pack(c), LowMask(n)) == Pack(Mix(n, b, c))
  {
    if n == 1 { First1(b, c); }
    else if n == 2 { First2(b, c); }
    else if n == 3 { First3(b, c); }
    else if n == 4 { First4(b, c); }
    else if n == 5 { First5(b, c); }
    else if n == 6 { First6(b, c); }
    else if n == 7 { First7(b, c); }
    else { First8(b, c); }
  }

  lemma First8(b: Eight<bv8>, c: Eight<bv8>)
    ensures First(Pack(b), Pack(c), ONES) == Pack(c)
  {
  }

  /** What the two stores of a masked swap write. */
  lemma SwappedBytes(n: nat, b: Eight<bv8>, c: Eight<bv8>)
    requires 1 <= n <= 8
    ensures Unpack(First(Pack(b), Pack(c), LowMask(n))) == Mix(n, b, c)
    ensures Unpack(Second(Pack(b), Pack(c), LowMask(n))) == Mix(n, c, b)
  {
    SumIsJoin(Pack(b), Pack(c), LowMask(n));
    FirstIsMix(n, b, c);
    FirstIsMix(n, c, b);
    UnpackPack(Mix(n, b, c));
    UnpackPack(Mix(n, c, b));
  }
}
