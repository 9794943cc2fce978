/** The enclave's packet accounting: the sketch, its bulk updates, and the two copy paths. */
module Sketch {
  import opened CountMin

  /** What the copy paths use of a packet, and the header the header-copy path keeps of it. */
  datatype Packet = Packet(srcIp: nat, dstIp: nat, srcPort: nat, dstPort: nat, proto: nat, pktLen: nat)

  datatype Header = Header(srcIp: nat, dstIp: nat, srcPort: nat, dstPort: nat, proto: nat, pktLen: nat)

  function HeaderOf(p: Packet, len: nat): Header { Header(p.srcIp, p.dstIp, p.srcPort, p.dstPort, p.proto, len) }

  /** A burst counted under source addresses. */
  function BySource(pkts: seq<Packet>): (s: seq<Update>)
    ensures |s| == |pkts| && forall i :: 0 <= i < |s| ==> s[i] == Update(pkts[i].srcIp, pkts[i].pktLen)
  {
    seq(|pkts|, i requires 0 <= i < |pkts| => Update(pkts[i].srcIp, pkts[i].pktLen))
  }

  function Sources(hs: seq<Header>): (k: seq<nat>)
    ensures |k| == |hs| && forall i :: 0 <= i < |k| ==> k[i] == hs[i].srcIp
  {
    seq(|hs|, i requires 0 <= i < |hs| => hs[i].srcIp)
  }

  function Zip(keys: seq<nat>, lens: seq<nat>): (s: seq<Update>)
    requires |keys| == |lens|
    ensures |s| == |keys| && forall i :: 0 <= i < |s| ==> s[i] == Update(keys[i], lens[i])
  {
    seq(|keys|, i requires 0 <= i < |keys| => Update(keys[i], lens[i]))
  }

  lemma CounterSnoc(r: Row, j: nat, s: seq<Update>, u: Update)
    ensures Counter(r, j, s + [u]) == (Counter(r, j, s) + If(Index(r, u.key) == j, u.amount)) % WORD
  {
    CellSnoc(r, j, s, u);
  }

  /** The cells of the first `n` keys, both rows, side by side. */
  ghost predicate Staged(j: seq<nat>, r0: Row, r1: Row, keys: seq<nat>, n: nat) {
    && 2 * n <= |j| && n <= |keys|
    && forall p :: 0 <= p < n ==> j[2 * p] == Index(r0, keys[p]) && j[2 * p + 1] == Index(r1, keys[p])
  }

  lemma StagedNext(j: seq<nat>, j': seq<nat>, r0: Row, r1: Row, keys: seq<nat>, p: nat)
    requires p < |keys| && 2 * p + 2 <= |j| == |j'| && Staged(j, r0, r1, keys, p)
    requires j' == j[2 * p := Index(r0, keys[p])][2 * p + 1 := Index(r1, keys[p])]
    ensures Staged(j', r0, r1, keys, p + 1)
  {
  }

  class Sketch {
    const counters: array2<nat>
    const crc: Header -> nat
    var a: seq<nat>
    var b: seq<nat>

    constructor (crc: Header -> nat)
      ensures fresh(counters) && this.crc == crc && Shape()
    {
      counters := new nat[DEPTH, WIDTH]((_, _) => 0);
      this.crc := crc;
      a, b := [0, 0], [0, 0];
    }

    ghost predicate Shape()
      reads this
    {
      counters.Length0 == DEPTH && counters.Length1 == WIDTH && |a| == DEPTH && |b| == DEPTH
    }

    ghost function RowAt(i: nat): Row
      requires Shape() && i < DEPTH
      reads this
    {
      RowOf(a[i], b[i])
    }

    /** Row `i` is what the stream leaves in it. */
    ghost predicate RowHolds(i: nat, s: seq<Update>)
      requires Shape() && i < DEPTH
      reads this, counters
    {
      forall j :: 0 <= j < WIDTH ==> counters[i, j] == Counter(RowAt(i), j, s)
    }

    /** The sketch holds exactly this stream of updates. */
    ghost predicate Holds(s: seq<Update>)
      reads this, counters
    {
      Shape() && RowHolds(0, s) && RowHolds(1, s)
    }

    /** The sum of the first `n` counters of row `i`, as the memory holds them. */
    ghost function Stored(i: nat, n: nat): nat
      requires Shape() && i < DEPTH && n <= WIDTH
      reads this, counters
    {
      if n == 0 then 0 else Stored(i, n - 1) + counters[i, n - 1]
    }

    lemma {:induction false} StoredIs(i: nat, n: nat, s: seq<Update>)
      requires Shape() && i < DEPTH && n <= WIDTH && RowHolds(i, s)
      ensures Stored(i, n) == CounterSum(RowAt(i), s, n)
      decreases n
    {
      if n != 0 {
        StoredIs(i, n - 1, s);
      }
    }

    /** The counters of a row sum to the stream's total exactly when none of them has overflowed. */
    lemma RowsSumToWhole(i: nat, n: nat, s: seq<Update>)
      requires Holds(s) && i < DEPTH && n == WIDTH
      ensures Stored(i, n) <= Whole(s) && (Stored(i, n) == Whole(s) <==> RowUnwrapped(RowAt(i), s, n))
    {
      assert RowHolds(i, s);
      StoredIs(i, n, s);
      CountersSumToWhole(RowAt(i), s, n);
    }

    /** cm_init, with the random numbers it draws. */
    method Init(randomA: seq<nat>, randomB: seq<nat>)
      requires Shape() && |randomA| == DEPTH && |randomB| == DEPTH
      modifies this, counters
      ensures Holds([]) && forall i :: 0 <= i < DEPTH ==> a[i] < PRIME && b[i] < PRIME
      ensures forall i, j :: 0 <= i < 2 && 0 <= j < 65536 ==> counters[i, j] == 0
      ensures a == [randomA[0] % 4294967231, randomA[1] % 4294967231]
      ensures b == [randomB[0] % 4294967231, randomB[1] % 4294967231]
    {
      forall i, j | 0 <= i < DEPTH && 0 <= j < WIDTH {
        counters[i, j] := 0;
      }
      a := [randomA[0] % PRIME, randomA[1] % PRIME];
      b := [randomB[0] % PRIME, randomB[1] % PRIME];
    }

    /** One row's share of an update. */
    method AddTo(i: nat, j: nat, d: nat, ghost s: seq<Update>, ghost u: Update)
      requires Shape() && i < DEPTH && RowHolds(i, s) && j == Index(RowAt(i), u.key) && d == u.amount
      modifies counters
      ensures RowHolds(i, s + [u])
      ensures forall k, l :: 0 <= k < DEPTH && 0 <= l < WIDTH ==>
        counters[k, l] == if k == i && l == j then (old(counters[k, l]) + d) % WORD else old(counters[k, l])
    {
      forall l | 0 <= l < WIDTH
        ensures Counter(RowAt(i), l, s + [u]) == (Counter(RowAt(i), l, s) + If(j == l, d)) % WORD
      {
        CounterSnoc(RowAt(i), l, s, u);
      }
      counters[i, j] := (counters[i, j] + d) % WORD;
    }

    /** cm_update. */
    method CmUpdate(hc: Header, d: nat, ghost s: seq<Update>)
      requires Holds(s)
      modifies counters
      ensures Holds(s + [Update(crc(hc), d)])
      ensures forall i, j :: 0 <= i < 2 && 0 <= j < 65536 ==>
        counters[i, j] ==
          if j == (a[i] * crc(hc) + b[i]) % 65536 then (old(counters[i, j]) + d) % 0x1_0000_0000_0000_0000
          else old(counters[i, j])
    {
      var h := crc(hc);
      var j0 := CellOf(0, h);
      var j1 := CellOf(1, h);
      AddPacket(j0, j1, d, s, Update(h, d));
    }

    /** cm_estimate: the smaller of the two cells of the header's hash. */
    method CmEstimate(hc: Header, ghost s: seq<Update>) returns (result: nat)
      requires Holds(s)
      ensures result == Estimate(RowAt(0), RowAt(1), crc(hc), s) <= Whole(s)
      ensures Unwrapped(RowAt(0), RowAt(1), crc(hc), s) ==> Total(crc(hc), s) <= result
      ensures var x, y := counters[0, (a[0] * crc(hc) + b[0]) % 65536], counters[1, (a[1] * crc(hc) + b[1]) % 65536];
        result == if x < y then x else y
      ensures Apart(a[0], b[0], crc(hc), s) && Apart(a[1], b[1], crc(hc), s) ==>
        result == Total(crc(hc), s) % 0x1_0000_0000_0000_0000
    {
      if Apart(a[0], b[0], crc(hc), s) && Apart(a[1], b[1], crc(hc), s) {
        ApartExact(a[0], b[0], a[1], b[1], crc(hc), s);
      }
      EstimateBounds(RowAt(0), RowAt(1), crc(hc), s);
      var h := crc(hc);
      result := WORD - 1;
      var j := CellOf(0, h);
      result := if counters[0, j] < result then counters[0, j] else result;
      j := CellOf(1, h);
      result := if counters[1, j] < result then counters[1, j] else result;
    }

    method StageCells(h: seq<nat>) returns (j: array<nat>)
      requires Shape()
      ensures fresh(j) && Staged(j[..], RowAt(0), RowAt(1), h, |h|)
    {
      j := new nat[2 * |h|];
      for p := 0 to |h|
        invariant Staged(j[..], RowAt(0), RowAt(1), h, p)
      {
        var j0 := CellOf(0, h[p]);
        var j1 := CellOf(1, h[p]);
        ghost var before := j[..];
        j[2 * p] := j0;
        j[2 * p + 1] := j1;
        StagedNext(before, j[..], RowAt(0), RowAt(1), h, p);
      }
    }

    method CellOf(i: nat, h: nat) returns (j: nat)
      requires Shape() && i < DEPTH
      ensures j == Index(RowAt(i), h) == (a[i] * h + b[i]) % 65536
    {
      CellOfKey(a[i], b[i], h);
      j := ((a[i] * h + b[i]) % WORD) % WIDTH;
    }

    /** The last two loops of the bulk updates: first every cell, then every addition. */
    method AddStaged(h: seq<nat>, lens: seq<nat>, ghost s: seq<Update>)
      requires Holds(s) && |h| == |lens|
      modifies counters
      ensures Holds(s + Zip(h, lens))
    {
      var j := StageCells(h);
      ghost var ups := Zip(h, lens);
      assert s + ups[..0] == s;
      for p := 0 to |h|
        invariant Holds(s + ups[..p]) && Staged(j[..], RowAt(0), RowAt(1), h, |h|)
      {
        var j0, j1 := j[2 * p], j[2 * p + 1];
        assert j[..][2 * p] == j0 && j[..][2 * p + 1] == j1;
        AddPacket(j0, j1, lens[p], s + ups[..p], ups[p]);
        assert (s + ups[..p]) + [ups[p]] == s + ups[..p + 1];
      }
      assert ups[..|h|] == ups;
    }

    method AddPacket(j0: nat, j1: nat, d: nat, ghost s: seq<Update>, ghost u: Update)
      requires Holds(s) && j0 == Index(RowAt(0), u.key) && j1 == Index(RowAt(1), u.key) && d == u.amount
      modifies counters
      ensures Holds(s + [u])
      ensures forall i, j :: 0 <= i < DEPTH && 0 <= j < WIDTH ==>
        counters[i, j] ==
          if j == (if i == 0 then j0 else j1) then (old(counters[i, j]) + d) % WORD else old(counters[i, j])
    {
      AddTo(0, j0, d, s, u);
      AddTo(1, j1, d, s, u);
    }

    /** cm_update_bulk_hc. */
    method CmUpdateBulkHc(hc: seq<Header>, lens: seq<nat>, ghost s: seq<Update>)
      requires Holds(s) && |lens| == |hc| <= BURST
      modifies counters
      ensures Holds(s + Zip(Sources(hc), lens))
    {
      AddStaged(Sources(hc), lens, s);
    }

    /** cm_update_bulk_mbuf, the full-copy path: a burst is counted as it is. */
    method FullCopy(pkts: seq<Packet>, ghost s: seq<Update>)
      requires Holds(s) && |pkts| <= BURST
      modifies counters
      ensures Holds(s + BySource(pkts))
    {
      var h := seq(|pkts|, i requires 0 <= i < |pkts| => pkts[i].srcIp);
      var l := seq(|pkts|, i requires 0 <= i < |pkts| => pkts[i].pktLen);
      AddStaged(h, l, s);
      assert Zip(h, l) == BySource(pkts);
    }

    /** input_port_make_header_copy: lengths pass through sixteen bits on their way to the sketch. */
    method HeaderCopy(pkts: seq<Packet>, headers: array<Header>, ghost s: seq<Update>)
      requires Holds(s) && |pkts| <= BURST == headers.Length && headers as object != counters
      modifies counters, headers
      ensures Holds(s + Truncated(BySource(pkts)))
      ensures forall i :: 0 <= i < |pkts| ==>
        var p := pkts[i];
        headers[i] == Header(p.srcIp, p.dstIp, p.srcPort, p.dstPort, p.proto, p.pktLen % 65536)
      ensures forall i :: |pkts| <= i < BURST ==> headers[i] == old(headers[i])
    {
      var lens := CloneAll(pkts, headers);
      assert Zip(Sources(headers[..|pkts|]), lens) == Truncated(BySource(pkts));
      CmUpdateBulkHc(headers[..|pkts|], lens, s);
      for i := 0 to |pkts|
        invariant Holds(s + Truncated(BySource(pkts)))
        invariant forall k :: 0 <= k < |pkts| ==> headers[k] == HeaderOf(pkts[k], if k < i then lens[k] else 0)
        invariant forall k :: |pkts| <= k < BURST ==> headers[k] == old(headers[k])
      {
        headers[i] := headers[i].(pktLen := lens[i]);
      }
    }

    /** header_cache_clone over a burst. */
    method CloneAll(pkts: seq<Packet>, headers: array<Header>) returns (lens: seq<nat>)
      requires |pkts| <= headers.Length
      modifies headers
      ensures |lens| == |pkts| && forall i :: 0 <= i < |pkts| ==>
        headers[i] == HeaderOf(pkts[i], 0) && lens[i] == pkts[i].pktLen % LEN16
      ensures forall i :: |pkts| <= i < headers.Length ==> headers[i] == old(headers[i])
    {
      lens := [];
      for i := 0 to |pkts|
        invariant |lens| == i
        invariant forall k :: 0 <= k < i ==> headers[k] == HeaderOf(pkts[k], 0) && lens[k] == pkts[k].pktLen % LEN16
        invariant forall k :: i <= k < headers.Length ==> headers[k] == old(headers[k])
      {
        headers[i] := HeaderOf(pkts[i], 0);
        lens := lens + [pkts[i].pktLen % LEN16];
      }
    }
  }

  // ----- keyed by header

  datatype Record = Record(header: Header, amount: nat)

  /** Updates made one at a time, keyed by the header's hash. */
  function Keyed(crc: Header -> nat, rs: seq<Record>): (s: seq<Update>)
    ensures |s| == |rs| && forall i :: 0 <= i < |s| ==> s[i] == Update(crc(rs[i].header), rs[i].amount)
  {
    seq(|rs|, i requires 0 <= i < |rs| => Update(crc(rs[i].header), rs[i].amount))
  }

  function TotalOf(hc: Header, rs: seq<Record>): nat {
    if rs == [] then 0 else TotalOf(hc, rs[..|rs| - 1]) + If(rs[|rs| - 1].header == hc, rs[|rs| - 1].amount)
  }

  lemma {:induction false} HashesJoin(crc: Header -> nat, hc: Header, rs: seq<Record>)
    ensures TotalOf(hc, rs) <= Total(crc(hc), Keyed(crc, rs))
    decreases |rs|
  {
    if rs != [] {
      var n := |rs| - 1;
      HashesJoin(crc, hc, rs[..n]);
      assert Keyed(crc, rs)[..n] == Keyed(crc, rs[..n]);
    }
  }

  /** Fed by single updates, the estimate for a header is at most the stream's total, and not
      below the header's own unless one of its two counters has overflowed. */
  lemma HeaderEstimate(crc: Header -> nat, r0: Row, r1: Row, hc: Header, rs: seq<Record>)
    ensures var s := Keyed(crc, rs);
      && Estimate(r0, r1, crc(hc), s) <= Whole(s)
      && (Unwrapped(r0, r1, crc(hc), s) ==> TotalOf(hc, rs) <= Estimate(r0, r1, crc(hc), s))
  {
    HashesJoin(crc, hc, rs);
    EstimateBounds(r0, r1, crc(hc), Keyed(crc, rs));
  }
}
