/** What a count-min sketch holds, as sums over the stream of updates. */
module CountMin {
  import opened Basics

  const WIDTH: nat := 65536
  const DEPTH: nat := 2
  const PRIME: nat := 4294967231
  const WORD: nat := 0x1_0000_0000_0000_0000

  /** A row is its hash function; of its 64-bit value a cell uses the low sixteen bits. */
  datatype Row = Row(hash: nat -> nat)

  function Index(r: Row, h: nat): (j: nat)
    ensures j < WIDTH
  {
    r.hash(h) % WIDTH
  }

  /** `a * h + b` in 64 bits. */
  function RowOf(a: nat, b: nat): Row { Row(h => (a * h + b) % WORD) }

  /** The cell of a key: of `a * h + b` the low sixteen bits, which the cut to 64 bits does not touch. */
  lemma CellOfKey(a: nat, b: nat, h: nat)
    ensures Index(RowOf(a, b), h) == (a * h + b) % 65536
  {
    LowBitsKept(a * h + b);
  }

  lemma LowBitsKept(x: nat)
    ensures x % WORD % WIDTH == x % 65536
  {
  }

  datatype Update = Update(key: nat, amount: nat)

  function If(c: bool, d: nat): nat { if c then d else 0 }

  /** What falls into cell `j` of a row, what belongs to a key, and everything. */
  function Cell(r: Row, j: nat, s: seq<Update>): nat {
    if s == [] then 0 else Cell(r, j, s[..|s| - 1]) + If(Index(r, s[|s| - 1].key) == j, s[|s| - 1].amount)
  }

  function Total(key: nat, s: seq<Update>): nat {
    if s == [] then 0 else Total(key, s[..|s| - 1]) + If(s[|s| - 1].key == key, s[|s| - 1].amount)
  }

  function Whole(s: seq<Update>): nat {
    if s == [] then 0 else Whole(s[..|s| - 1]) + s[|s| - 1].amount
  }

  lemma CellSnoc(r: Row, j: nat, s: seq<Update>, u: Update)
    ensures Cell(r, j, s + [u]) == Cell(r, j, s) + If(Index(r, u.key) == j, u.amount)
  {
    assert (s + [u])[..|s|] == s;
  }

  lemma {:induction false} CellAppend(r: Row, j: nat, s: seq<Update>, t: seq<Update>)
    ensures Cell(r, j, s + t) == Cell(r, j, s) + Cell(r, j, t)
    decreases |t|
  {
    if t == [] {
      assert s + t == s;
    } else {
      var n := |t| - 1;
      CellAppend(r, j, s, t[..n]);
      assert t == t[..n] + [t[n]];
      assert s + t == (s + t[..n]) + [t[n]];
      CellSnoc(r, j, s + t[..n], t[n]);
      CellSnoc(r, j, t[..n], t[n]);
    }
  }

  // ----- bounds

  /** A key's cell holds at least the key's total and at most everything. */
  lemma {:induction false} CellBounds(r: Row, key: nat, s: seq<Update>)
    ensures Total(key, s) <= Cell(r, Index(r, key), s)
    decreases |s|
  {
    if s != [] {
      CellBounds(r, key, s[..|s| - 1]);
    }
  }

  lemma {:induction false} CellAtMost(r: Row, j: nat, s: seq<Update>)
    ensures Cell(r, j, s) <= Whole(s)
    decreases |s|
  {
    if s != [] {
      CellAtMost(r, j, s[..|s| - 1]);
    }
  }

  // ----- a row accounts for everything

  function RowSum(r: Row, s: seq<Update>, n: nat): nat {
    if n == 0 then 0 else RowSum(r, s, n - 1) + Cell(r, n - 1, s)
  }

  lemma {:induction false} RowSumStep(r: Row, s: seq<Update>, u: Update, n: nat)
    ensures RowSum(r, s + [u], n) == RowSum(r, s, n) + If(Index(r, u.key) < n, u.amount)
    decreases n
  {
    if n != 0 {
      RowSumStep(r, s, u, n - 1);
      CellSnoc(r, n - 1, s, u);
    }
  }

  lemma {:induction false} RowSumEmpty(r: Row, n: nat)
    ensures RowSum(r, [], n) == 0
    decreases n
  {
    if n != 0 {
      RowSumEmpty(r, n - 1);
    }
  }

  lemma {:induction false} RowSumIsWhole(r: Row, s: seq<Update>, n: nat)
    requires n == WIDTH
    ensures RowSum(r, s, n) == Whole(s)
    decreases |s|
  {
    if s == [] {
      RowSumEmpty(r, n);
    } else {
      var k := |s| - 1;
      RowSumIsWhole(r, s[..k], n);
      assert s == s[..k] + [s[k]];
      RowSumStep(r, s[..k], s[k], n);
    }
  }

  // ----- the order of updates does not matter

  lemma Extract(s: seq<Update>, u: Update) returns (k: nat)
    requires u in multiset(s)
    ensures k < |s| && s[k] == u
  {
    k :| 0 <= k < |s| && s[k] == u;
  }

  lemma CellRemove(r: Row, j: nat, s: seq<Update>, k: nat)
    requires k < |s|
    ensures Cell(r, j, s) == Cell(r, j, s[..k] + s[k + 1..]) + If(Index(r, s[k].key) == j, s[k].amount)
    ensures multiset(s) == multiset(s[..k] + s[k + 1..]) + multiset{s[k]}
  {
    var a, b := s[..k], s[k + 1..];
    assert s == (a + [s[k]]) + b;
    CellAppend(r, j, a + [s[k]], b);
    CellSnoc(r, j, a, s[k]);
    CellAppend(r, j, a, b);
  }

  lemma Cancel(a: multiset<Update>, b: multiset<Update>, u: Update)
    requires a + multiset{u} == b + multiset{u}
    ensures a == b
  {
    assert a == (a + multiset{u}) - multiset{u};
    assert b == (b + multiset{u}) - multiset{u};
  }

  /** Two streams with the same updates, in any order, fill every cell alike. */
  lemma {:induction false} OrderIndependent(r: Row, j: nat, s: seq<Update>, t: seq<Update>)
    requires multiset(s) == multiset(t)
    ensures Cell(r, j, s) == Cell(r, j, t)
    decreases |s|
  {
    if s == [] {
      assert |multiset(t)| == |t|;
    } else {
      var n := |s| - 1;
      var u := s[n];
      assert u in multiset(t);
      var k := Extract(t, u);
      var s', t' := s[..n], t[..k] + t[k + 1..];
      CellRemove(r, j, t, k);
      CellRemove(r, j, s, n);
      assert s[..n] + s[n + 1..] == s';
      Cancel(multiset(s'), multiset(t'), u);
      OrderIndependent(r, j, s', t');
    }
  }

  // ----- estimates

  /** The counters as the stream leaves them: 64-bit sums. */
  function Counter(r: Row, j: nat, s: seq<Update>): nat { Cell(r, j, s) % WORD }

  function Estimate(r0: Row, r1: Row, h: nat, s: seq<Update>): nat {
    Min(Counter(r1, Index(r1, h), s), Counter(r0, Index(r0, h), s))
  }

  lemma CounterAtMost(r: Row, j: nat, s: seq<Update>)
    ensures Counter(r, j, s) <= Whole(s) && (Cell(r, j, s) < WORD ==> Counter(r, j, s) == Cell(r, j, s))
  {
    CellAtMost(r, j, s);
  }

  /** Neither of a key's two counters has overflowed. */
  predicate Unwrapped(r0: Row, r1: Row, h: nat, s: seq<Update>) {
    Cell(r0, Index(r0, h), s) < WORD && Cell(r1, Index(r1, h), s) < WORD
  }

  /** An estimate is never above the whole stream's total, and unless one of the key's
      own counters has overflowed it is not below the key's total. */
  lemma EstimateBounds(r0: Row, r1: Row, key: nat, s: seq<Update>)
    ensures Estimate(r0, r1, key, s) <= Whole(s)
    ensures Unwrapped(r0, r1, key, s) ==> Total(key, s) <= Estimate(r0, r1, key, s)
  {
    CellBounds(r0, key, s);
    CellBounds(r1, key, s);
    CounterAtMost(r0, Index(r0, key), s);
    CounterAtMost(r1, Index(r1, key), s);
  }

  /** No other key of the stream shares either cell of this one. */
  ghost predicate Alone(r0: Row, r1: Row, key: nat, s: seq<Update>) {
    forall i :: 0 <= i < |s| && s[i].key != key ==>
      Index(r0, s[i].key) != Index(r0, key) && Index(r1, s[i].key) != Index(r1, key)
  }

  lemma {:induction false} AloneCell(r: Row, key: nat, s: seq<Update>)
    requires forall i :: 0 <= i < |s| && s[i].key != key ==> Index(r, s[i].key) != Index(r, key)
    ensures Cell(r, Index(r, key), s) == Total(key, s)
    decreases |s|
  {
    if s != [] {
      AloneCell(r, key, s[..|s| - 1]);
    }
  }

  /** Without a collision the estimate is the key's total, modulo 2^64. */
  lemma AloneExact(r0: Row, r1: Row, key: nat, s: seq<Update>)
    requires Alone(r0, r1, key, s)
    ensures Estimate(r0, r1, key, s) == Total(key, s) % 0x1_0000_0000_0000_0000
  {
    AloneCell(r0, key, s);
    AloneCell(r1, key, s);
  }

  /** The same with the cells written out. */
  ghost predicate Apart(a: nat, b: nat, key: nat, s: seq<Update>) {
    forall i :: 0 <= i < |s| && s[i].key != key ==> (a * s[i].key + b) % 65536 != (a * key + b) % 65536
  }

  lemma ApartExact(a0: nat, b0: nat, a1: nat, b1: nat, key: nat, s: seq<Update>)
    requires Apart(a0, b0, key, s) && Apart(a1, b1, key, s)
    ensures Estimate(RowOf(a0, b0), RowOf(a1, b1), key, s) == Total(key, s) % 0x1_0000_0000_0000_0000
  {
    var r0, r1 := RowOf(a0, b0), RowOf(a1, b1);
    CellOfKey(a0, b0, key);
    CellOfKey(a1, b1, key);
    forall i | 0 <= i < |s| && s[i].key != key
      ensures Index(r0, s[i].key) != Index(r0, key) && Index(r1, s[i].key) != Index(r1, key)
    {
      CellOfKey(a0, b0, s[i].key);
      CellOfKey(a1, b1, s[i].key);
    }
    AloneExact(r0, r1, key, s);
  }

  /** None of the first `n` counters of a row has overflowed. */
  ghost predicate RowUnwrapped(r: Row, s: seq<Update>, n: nat) {
    forall j: nat :: j < n ==> Cell(r, j, s) < WORD
  }

  /** The sum of the first `n` counters of a row. */
  function CounterSum(r: Row, s: seq<Update>, n: nat): nat {
    if n == 0 then 0 else CounterSum(r, s, n - 1) + Counter(r, n - 1, s)
  }

  lemma {:induction false} CounterSumAtMost(r: Row, s: seq<Update>, n: nat)
    ensures CounterSum(r, s, n) <= RowSum(r, s, n)
    ensures CounterSum(r, s, n) == RowSum(r, s, n) <==> RowUnwrapped(r, s, n)
    decreases n
  {
    if n != 0 {
      CounterSumAtMost(r, s, n - 1);
      WrapLoses(Cell(r, n - 1, s));
      assert RowUnwrapped(r, s, n) <==> RowUnwrapped(r, s, n - 1) && Cell(r, n - 1, s) < WORD;
    }
  }

  lemma WrapLoses(x: nat)
    ensures x % WORD <= x && (x % WORD == x <==> x < WORD)
  {
  }

  /** A row of 64-bit counters sums to the whole stream's total exactly when none of them has overflowed. */
  lemma CountersSumToWhole(r: Row, s: seq<Update>, n: nat)
    requires n == WIDTH
    ensures CounterSum(r, s, n) <= Whole(s) && (CounterSum(r, s, n) == Whole(s) <==> RowUnwrapped(r, s, n))
  {
    CounterSumAtMost(r, s, n);
    RowSumIsWhole(r, s, n);
  }

  /** A total of 2^64 is no overflow as long as it is spread over different cells. */
  lemma LargeTotalUnwrapped(r0: Row, r1: Row, k: nat, l: nat)
    requires Index(r0, k) != Index(r0, l) && Index(r1, k) != Index(r1, l)
    ensures var s := [Update(k, WORD / 2), Update(l, WORD / 2)];
      Whole(s) == WORD && Unwrapped(r0, r1, k, s) && Estimate(r0, r1, k, s) == WORD / 2
  {
    var u, v := Update(k, WORD / 2), Update(l, WORD / 2);
    assert [u, v] == ([] + [u]) + [v];
    CellSnoc(r0, Index(r0, k), [], u);
    CellSnoc(r0, Index(r0, k), [] + [u], v);
    CellSnoc(r1, Index(r1, k), [], u);
    CellSnoc(r1, Index(r1, k), [] + [u], v);
    WholeSnoc([], u);
    WholeSnoc([] + [u], v);
  }

  lemma WholeSnoc(s: seq<Update>, u: Update)
    ensures Whole(s + [u]) == Whole(s) + u.amount
  {
    assert (s + [u])[..|s|] == s;
  }

  /** With overflow it can fall below: two updates of 2^63 leave nothing. */
  lemma OverflowUndercounts(r0: Row, r1: Row, key: nat)
    ensures var s := [Update(key, WORD / 2), Update(key, WORD / 2)];
      Estimate(r0, r1, key, s) == 0 && Total(key, s) == WORD
  {
    var u := Update(key, WORD / 2);
    var s := [u, u];
    assert s == ([] + [u]) + [u];
    CellSnoc(r0, Index(r0, key), [], u);
    CellSnoc(r0, Index(r0, key), [] + [u], u);
    CellSnoc(r1, Index(r1, key), [], u);
    CellSnoc(r1, Index(r1, key), [] + [u], u);
    TotalSnoc(key, [], u);
    TotalSnoc(key, [] + [u], u);
  }

  lemma TotalSnoc(key: nat, s: seq<Update>, u: Update)
    ensures Total(key, s + [u]) == Total(key, s) + If(u.key == key, u.amount)
  {
    assert (s + [u])[..|s|] == s;
  }

  /** Reading with hash `h` what was counted under `key`: a lower bound for every stream
      exactly when both rows put the two in the same cell. */
  lemma KeyingMatters(r0: Row, r1: Row, h: nat, key: nat)
    ensures (forall s :: Unwrapped(r0, r1, h, s) ==> Total(key, s) <= Estimate(r0, r1, h, s))
       <==> (Index(r0, h) == Index(r0, key) && Index(r1, h) == Index(r1, key))
  {
    if Index(r0, h) == Index(r0, key) && Index(r1, h) == Index(r1, key) {
      forall s | Unwrapped(r0, r1, h, s) ensures Total(key, s) <= Estimate(r0, r1, h, s) {
        EstimateBounds(r0, r1, key, s);
      }
    } else {
      var s := [] + [Update(key, 1)];
      CellSnoc(r0, Index(r0, h), [], Update(key, 1));
      CellSnoc(r1, Index(r1, h), [], Update(key, 1));
      TotalSnoc(key, [], Update(key, 1));
      assert Unwrapped(r0, r1, h, s) && Total(key, s) == 1 && Estimate(r0, r1, h, s) == 0;
    }
  }

  /** Identity hashes, a header that hashes to 1 and traffic from source 0: one packet, estimate 0. */
  lemma CrcIsNotSource()
    ensures var r := RowOf(1, 0);
      && Index(r, 1) != Index(r, 0)
      && Total(0, [Update(0, 100)]) == 100 && Estimate(r, r, 1, [Update(0, 100)]) == 0
  {
    var r, u := RowOf(1, 0), Update(0, 100);
    assert [] + [u] == [u];
    CellSnoc(r, Index(r, 1), [], u);
    TotalSnoc(0, [], u);
  }

  // ----- two ways of recording a packet's length

  /** The header-copy path stores lengths in sixteen bits; the full-copy path does not. */
  const LEN16: nat := 65536

  function Truncated(s: seq<Update>): (t: seq<Update>)
    ensures |t| == |s| && forall i :: 0 <= i < |s| ==> t[i] == Update(s[i].key, s[i].amount % LEN16)
  {
    seq(|s|, i requires 0 <= i < |s| => Update(s[i].key, s[i].amount % LEN16))
  }

  function Excess(s: seq<Update>): (t: seq<Update>)
    ensures |t| == |s| && forall i :: 0 <= i < |s| ==> t[i] == Update(s[i].key, s[i].amount - s[i].amount % LEN16)
  {
    seq(|s|, i requires 0 <= i < |s| => Update(s[i].key, s[i].amount - s[i].amount % LEN16))
  }

  lemma {:induction false} Splits(r: Row, j: nat, s: seq<Update>)
    ensures Cell(r, j, s) == Cell(r, j, Truncated(s)) + Cell(r, j, Excess(s))
    decreases |s|
  {
    if s != [] {
      var n := |s| - 1;
      Splits(r, j, s[..n]);
      assert Truncated(s)[..n] == Truncated(s[..n]);
      assert Excess(s)[..n] == Excess(s[..n]);
    }
  }

  ghost predicate Short(s: seq<Update>) { forall i :: 0 <= i < |s| ==> s[i].amount < LEN16 }

  /** Packet lengths are 32-bit. */
  ghost predicate Lengths(s: seq<Update>) { forall i :: 0 <= i < |s| ==> s[i].amount < 0x1_0000_0000 }

  lemma {:induction false} CellSmall(r: Row, j: nat, s: seq<Update>)
    requires Lengths(s)
    ensures Cell(r, j, s) <= |s| * 0x1_0000_0000
    decreases |s|
  {
    if s != [] {
      CellSmall(r, j, s[..|s| - 1]);
    }
  }

  lemma {:induction false} CellHas(r: Row, s: seq<Update>, k: nat)
    requires k < |s|
    ensures Cell(r, Index(r, s[k].key), s) >= s[k].amount
    decreases |s|
  {
    if k < |s| - 1 {
      CellHas(r, s[..|s| - 1], k);
    }
  }

  const BURST: nat := 64

  lemma SmallExcess(b: nat, t: nat, e: nat)
    requires e < WORD
    ensures (b + (t + e)) % WORD == (b + t) % WORD <==> e == 0
  {
  }

  lemma {:induction false} NoExcess(r: Row, j: nat, s: seq<Update>)
    requires Short(s)
    ensures Cell(r, j, Excess(s)) == 0
    decreases |s|
  {
    if s != [] {
      var n := |s| - 1;
      NoExcess(r, j, s[..n]);
      assert Excess(s)[..n] == Excess(s[..n]);
    }
  }

  lemma CellAgrees(r: Row, j: nat, base: seq<Update>, s: seq<Update>)
    requires |s| <= BURST && Lengths(s)
    ensures Counter(r, j, base + s) == Counter(r, j, base + Truncated(s)) <==> Cell(r, j, Excess(s)) == 0
  {
    CellAppend(r, j, base, s);
    CellAppend(r, j, base, Truncated(s));
    Splits(r, j, s);
    CellSmall(r, j, s);
    SmallExcess(Cell(r, j, base), Cell(r, j, Truncated(s)), Cell(r, j, Excess(s)));
    assert Cell(r, j, base + s) == Cell(r, j, base) + (Cell(r, j, Truncated(s)) + Cell(r, j, Excess(s)));
  }

  /** After a burst, the header-copy and the full-copy path agree on a row exactly when every length fits sixteen
      bits. */
  lemma CopyPathsAgree(r: Row, base: seq<Update>, s: seq<Update>)
    requires |s| <= BURST && Lengths(s)
    ensures (forall j :: 0 <= j < WIDTH ==> Counter(r, j, base + s) == Counter(r, j, base + Truncated(s))) <==> Short(s)
  {
    if Short(s) {
      forall j | 0 <= j < WIDTH ensures Counter(r, j, base + s) == Counter(r, j, base + Truncated(s)) {
        NoExcess(r, j, s);
        CellAgrees(r, j, base, s);
      }
    } else {
      var k :| 0 <= k < |s| && s[k].amount >= LEN16;
      var j := Index(r, s[k].key);
      CellHas(r, Excess(s), k);
      CellAgrees(r, j, base, s);
      assert Counter(r, j, base + s) != Counter(r, j, base + Truncated(s));
    }
  }
}
