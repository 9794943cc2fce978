/** 64-bit packet masks as numbers, and the positions they select. */
module BitMask {
  /** Packet masks are 64 bits wide. */
  const WIDTH: nat := 64

  function Pow2(k: nat): (p: nat)
    ensures p > 0
  {
    if k == 0 then 1 else 2 * Pow2(k - 1)
  }

  function Bit(m: nat, i: nat): bool
    decreases i
  {
    if i == 0 then m % 2 == 1 else Bit(m / 2, i - 1)
  }

  function And(a: nat, b: nat): (r: nat)
    ensures r <= a
    decreases a
  {
    if a == 0 then 0 else (if a % 2 == 1 && b % 2 == 1 then 1 else 0) + 2 * And(a / 2, b / 2)
  }

  function LowXor(a: nat, b: nat): (x: nat)
    ensures x < 2
  {
    if a % 2 == b % 2 then 0 else 1
  }

  function Xor(a: nat, b: nat): nat
    decreases a + b
  {
    if a == 0 && b == 0 then 0 else LowXor(a, b) + 2 * Xor(a / 2, b / 2)
  }

  function Shl(a: nat, i: nat): nat { if i == 0 then a else 2 * Shl(a, i - 1) }

  function Popcount(m: nat): nat { if m == 0 then 0 else m % 2 + Popcount(m / 2) }

  /** Number of trailing zeros. */
  function Ctz(m: nat): nat
    requires m != 0
  {
    if m % 2 == 1 then 0 else 1 + Ctz(m / 2)
  }

  /** The set positions of `m`, lowest first, counted from `base`. */
  function Positions(m: nat, base: nat): (s: seq<nat>)
    decreases m
  {
    if m == 0 then [] else (if m % 2 == 1 then [base] else []) + Positions(m / 2, base + 1)
  }

  // ----- bits of the operations

  lemma {:induction false} BitZero(i: nat)
    ensures !Bit(0, i)
    decreases i
  {
    if i != 0 {
      BitZero(i - 1);
    }
  }

  lemma Halves(x: nat, y: nat)
    requires x < 2
    ensures (x + 2 * y) / 2 == y && (x + 2 * y) % 2 == x
  {
  }

  lemma {:induction false} BitXor(a: nat, b: nat, i: nat)
    ensures Bit(Xor(a, b), i) == (Bit(a, i) != Bit(b, i))
    decreases i
  {
    if a == 0 && b == 0 {
      BitZero(i);
    } else {
      Halves(LowXor(a, b), Xor(a / 2, b / 2));
      if i != 0 {
        BitXor(a / 2, b / 2, i - 1);
      }
    }
  }

  lemma {:induction false} BitShl(a: nat, k: nat, i: nat)
    ensures Bit(Shl(a, k), i) == (i >= k && Bit(a, i - k))
    decreases k
  {
    if k != 0 && i != 0 {
      BitShl(a, k - 1, i - 1);
    }
  }

  lemma {:induction false} AndSelf(a: nat)
    ensures And(a, a) == a
    decreases a
  {
    if a != 0 {
      AndSelf(a / 2);
    }
  }

  // ----- contiguous masks

  /** Positions `base`, `base + 1`, … . */
  function From(base: nat, n: nat): (s: seq<nat>)
    ensures |s| == n && forall i :: 0 <= i < n ==> s[i] == base + i
  {
    seq(n, i => base + i)
  }

  /** The test of the fast path holds exactly of masks whose set bits are the lowest ones. */
  lemma {:induction false} ContiguousPositions(m: nat, base: nat)
    ensures And(m, m + 1) == 0 <==> Positions(m, base) == From(base, Popcount(m))
    decreases m
  {
    if m != 0 {
      if m % 2 == 1 {
        ContiguousPositions(m / 2, base + 1);
        ConsFrom(base, Popcount(m / 2), Positions(m / 2, base + 1));
      } else {
        AndSelf(m / 2);
        FirstPosition(m / 2, base + 1);
        assert Positions(m, base) == Positions(m / 2, base + 1);
      }
    }
  }

  lemma ConsFrom(base: nat, n: nat, s: seq<nat>)
    ensures s == From(base + 1, n) <==> [base] + s == From(base, n + 1)
  {
    if [base] + s == From(base, n + 1) {
      assert s == ([base] + s)[1..];
    }
  }

  lemma {:induction false} FirstPosition(m: nat, base: nat)
    requires m != 0
    ensures Positions(m, base) != [] && Positions(m, base)[0] >= base && Popcount(m) > 0
    decreases m
  {
    if m % 2 == 0 {
      FirstPosition(m / 2, base + 1);
    }
  }

  /** `m + 1` in a word of `k` bits. */
  function Inc(m: nat, k: nat): nat { if m + 1 == Pow2(k) then 0 else m + 1 }

  /** The wrap-around of the full mask goes unnoticed by the test. */
  lemma WrappedTest(m: nat, k: nat)
    requires m < Pow2(k)
    ensures And(m, Inc(m, k)) == 0 <==> And(m, m + 1) == 0
  {
    if m + 1 == Pow2(k) {
      AndZero(m);
      AllOnes(m, k);
    }
  }

  lemma {:induction false} AndZero(a: nat)
    ensures And(a, 0) == 0
    decreases a
  {
    if a != 0 {
      AndZero(a / 2);
    }
  }

  lemma {:induction false} AllOnes(m: nat, k: nat)
    requires m + 1 == Pow2(k)
    ensures And(m, m + 1) == 0
    decreases k
  {
    if k != 0 {
      AllOnes(m / 2, k - 1);
    }
  }

  // ----- taking the lowest position

  /** Clears the lowest set bit. */
  function ClearLowest(m: nat): (r: nat)
    requires m != 0
    ensures r < m
  {
    if m % 2 == 1 then m - 1 else 2 * ClearLowest(m / 2)
  }

  function AndNot(a: nat, b: nat): (r: nat)
    ensures r <= a
    decreases a
  {
    if a == 0 then 0 else (if a % 2 == 1 && b % 2 == 0 then 1 else 0) + 2 * AndNot(a / 2, b / 2)
  }

  lemma {:induction false} BitAndNot(a: nat, b: nat, i: nat)
    ensures Bit(AndNot(a, b), i) == (Bit(a, i) && !Bit(b, i))
    decreases i
  {
    if a == 0 {
      BitZero(i);
    } else {
      Halves(if a % 2 == 1 && b % 2 == 0 then 1 else 0, AndNot(a / 2, b / 2));
      if i != 0 {
        BitAndNot(a / 2, b / 2, i - 1);
      }
    }
  }

  /** `m & ~(1 << ctz(m))` clears the lowest set bit. */
  lemma {:induction false} ClearsLowest(m: nat)
    requires m != 0
    ensures ClearLowest(m) == AndNot(m, Shl(1, Ctz(m)))
    decreases m
  {
    if m % 2 == 1 {
      AndNotZero(m / 2);
    } else {
      var h, b := m / 2, Shl(1, Ctz(m / 2));
      ClearsLowest(h);
      Halves(0, b);
      assert m == 2 * h && Shl(1, Ctz(m)) == 2 * b;
    }
  }

  lemma {:induction false} AndNotZero(a: nat)
    ensures AndNot(a, 0) == a
    decreases a
  {
    if a != 0 {
      AndNotZero(a / 2);
    }
  }

  lemma {:induction false} LowestIsSet(m: nat)
    requires m != 0
    ensures Bit(m, Ctz(m))
    decreases m
  {
    if m % 2 == 0 {
      LowestIsSet(m / 2);
    }
  }

  /** The lowest set bit is the first position, and clearing it leaves the others. */
  lemma {:induction false} LowestFirst(m: nat, base: nat)
    requires m != 0
    ensures Positions(m, base) == [base + Ctz(m)] + Positions(ClearLowest(m), base)
    decreases m
  {
    if m % 2 == 1 {
      assert Positions(m - 1, base) == Positions(m / 2, base + 1);
    } else {
      LowestFirst(m / 2, base + 1);
      var r := ClearLowest(m / 2);
      assert Positions(2 * r, base) == Positions(r, base + 1);
    }
  }

  lemma {:induction false} PositionsAreBits(m: nat, base: nat, p: nat)
    requires base <= p
    ensures p in Positions(m, base) <==> Bit(m, p - base)
    decreases p - base
  {
    if m == 0 {
      BitZero(p - base);
    } else if p == base {
      PositionsAbove(m / 2, base + 1, base);
    } else {
      PositionsAreBits(m / 2, base + 1, p);
    }
  }

  lemma {:induction false} PositionsAbove(m: nat, base: nat, p: nat)
    requires p < base
    ensures p !in Positions(m, base)
    decreases m
  {
    if m != 0 {
      PositionsAbove(m / 2, base + 1, p);
    }
  }

  /** Positions come in ascending order, so none comes twice. */
  lemma {:induction false} PositionsAscend(m: nat, base: nat)
    ensures forall i, j :: 0 <= i < j < |Positions(m, base)| ==> Positions(m, base)[i] < Positions(m, base)[j]
    ensures forall i :: 0 <= i < |Positions(m, base)| ==> Positions(m, base)[i] >= base
    decreases m
  {
    if m != 0 {
      PositionsAscend(m / 2, base + 1);
    }
  }
}
