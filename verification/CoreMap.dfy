/** Building and checking the CPU core map. */
module CoreMap {
  import opened Basics
  import opened CoreTopology

  // ----- the flat index

  function Pos(nCores: nat, nHt: nat, s: nat, c: nat, h: nat): nat { (s * nCores + c) * nHt + h }

  lemma {:induction false} NextMultiple(a: nat, b: nat, m: nat)
    requires a < b
    ensures a * m + m <= b * m
    decreases b
  {
    assert b * m == (b - 1) * m + m;
    if a < b - 1 {
      NextMultiple(a, b - 1, m);
    }
  }

  lemma Quotient(a: nat, b: nat, m: nat, x: nat, y: nat)
    requires x < m && y < m && a * m + x == b * m + y
    ensures a == b && x == y
  {
    if a < b {
      NextMultiple(a, b, m);
    } else if b < a {
      NextMultiple(b, a, m);
    }
  }

  /** Distinct places of the box have distinct positions. */
  lemma PosInjective(nCores: nat, nHt: nat, s: nat, c: nat, h: nat, s': nat, c': nat, h': nat)
    requires c < nCores && c' < nCores && h < nHt && h' < nHt &&
      Pos(nCores, nHt, s, c, h) == Pos(nCores, nHt, s', c', h')
    ensures s == s' && c == c' && h == h'
  {
    Quotient(s * nCores + c, s' * nCores + c', nHt, h, h');
    Quotient(s, s', nCores, c, c');
  }

  lemma PosInRange(nSockets: nat, nCores: nat, nHt: nat, s: nat, c: nat, h: nat)
    requires s < nSockets && c < nCores && h < nHt
    ensures Pos(nCores, nHt, s, c, h) < nSockets * nCores * nHt
  {
    NextMultiple(s, nSockets, nCores);
    NextMultiple(s * nCores + c, nSockets * nCores, nHt);
  }

  // ----- the map

  class CoreMap {
    /** Sockets by cores by hyper-threads. */
    const cells: array3<int>
    var nSockets: nat
    var nCores: nat
    var nHt: nat

    constructor (maxSockets: nat, maxCores: nat, maxHt: nat)
      ensures fresh(cells) && cells.Length0 == maxSockets && cells.Length1 == maxCores && cells.Length2 == maxHt
      ensures nSockets == 0 && nCores == 0 && nHt == 0
      ensures forall s, c, h :: 0 <= s < maxSockets && 0 <= c < maxCores && 0 <= h < maxHt ==> cells[s, c, h] == -1
    {
      cells := new int[maxSockets, maxCores, maxHt]((_, _, _) => -1);
      nSockets, nCores, nHt := 0, 0, 0;
    }

    /** A socket's part of the map shows these cores, each with its logical cores. */
    ghost predicate Shows(ls: Lcores, s: nat, cores: seq<nat>)
      requires s < cells.Length0
      reads cells
    {
      forall c, h :: 0 <= c < cells.Length1 && 0 <= h < cells.Length2 ==> cells[s, c, h] == Entry(ls, s, cores, c, h)
    }

    ghost predicate Blank(s: nat)
      requires s < cells.Length0
      reads cells
    {
      forall c, h :: 0 <= c < cells.Length1 && 0 <= h < cells.Length2 ==> cells[s, c, h] == -1
    }

    /** The loop over the logical cores of one core id. */
    method PlaceCore(ls: Lcores, s: nat, core: nat, contig: nat, ghost cores: seq<nat>) returns (ht: nat)
      requires s < cells.Length0 && contig < cells.Length1 && |Threads(ls, s, core)| <= cells.Length2
      requires |cores| == contig && Shows(ls, s, cores)
      modifies cells
      ensures ht == |Threads(ls, s, core)|
      ensures Shows(ls, s, if ht == 0 then cores else cores + [core])
      ensures forall t, c, h :: 0 <= t < cells.Length0 && t != s && 0 <= c < cells.Length1 && 0 <= h < cells.Length2 ==>
        cells[t, c, h] == old(cells[t, c, h])
    {
      ht := 0;
      for i := 0 to |ls|
        invariant ht == |Ids(ls, s, core, i)| && Growing(ls, s, core, i)
        invariant forall c, h :: 0 <= c < cells.Length1 && 0 <= h < cells.Length2 ==>
          cells[s, c, h] == if c == contig && h < ht then Ids(ls, s, core, i)[h] else old(cells[s, c, h])
        invariant forall t, c, h ::
          0 <= t < cells.Length0 && t != s && 0 <= c < cells.Length1 && 0 <= h < cells.Length2 ==>
            cells[t, c, h] == old(cells[t, c, h])
      {
        IdsGrow(ls, s, core, i + 1, |ls|);
        if ls[i] == Some(Lcore(s, core)) {
          cells[s, contig, ht] := i;
          ht := ht + 1;
        }
      }
    }

    /** One core id: its logical cores placed, and what remains to be found. */
    method NextCore(ls: Lcores, s: nat, core: nat, contig: nat, nDetected: nat) returns (contig': nat, nDetected': nat)
      requires s < cells.Length0 && FewThreads(ls, s, cells.Length2) && Shows(ls, s, Cores(ls, s, core))
      requires contig == |Cores(ls, s, core)| < cells.Length1 && nDetected == Later(ls, s, core, |ls|)
      modifies cells
      ensures contig' == |Cores(ls, s, core + 1)| && nDetected' == Later(ls, s, core + 1, |ls|) &&
        Shows(ls, s, Cores(ls, s, core + 1))
      ensures forall t, c, h :: 0 <= t < cells.Length0 && t != s && 0 <= c < cells.Length1 && 0 <= h < cells.Length2 ==>
        cells[t, c, h] == old(cells[t, c, h])
    {
      LaterStep(ls, s, core, |ls|);
      var ht := PlaceCore(ls, s, core, contig, Cores(ls, s, core));
      nDetected' := nDetected - ht;
      contig' := if ht != 0 then contig + 1 else contig;
    }

    /** The part of cpu_core_map_compute_eal for one socket; the search for core ids ends when none is left to place. */
    method ComputeSocket(ls: Lcores, s: nat) returns (ok: bool)
      requires s < cells.Length0 && 0 < cells.Length1 && FewThreads(ls, s, cells.Length2) && Blank(s)
      modifies cells
      ensures ok == (|AllCores(ls, s)| < cells.Length1)
      ensures ok ==> Shows(ls, s, AllCores(ls, s))
      ensures forall t, c, h :: 0 <= t < cells.Length0 && t != s && 0 <= c < cells.Length1 && 0 <= h < cells.Length2 ==>
        cells[t, c, h] == old(cells[t, c, h])
    {
      var nDetected := CountSocket(ls, s);
      var core, contig := 0, 0;
      while nDetected != 0
        invariant nDetected == Later(ls, s, core, |ls|) && contig == |Cores(ls, s, core)| < cells.Length1
        invariant Shows(ls, s, Cores(ls, s, core))
        invariant forall t, c, h ::
          0 <= t < cells.Length0 && t != s && 0 <= c < cells.Length1 && 0 <= h < cells.Length2 ==>
            cells[t, c, h] == old(cells[t, c, h])
        decreases Bound(ls) - core
      {
        LaterBound(ls, s, core, |ls|);
        contig, nDetected := NextCore(ls, s, core, contig, nDetected);
        core := core + 1;
        if contig == cells.Length1 {
          CoresGrow(ls, s, core, Bound(ls));
          return false;
        }
      }
      SearchDone(ls, s, core);
      return true;
    }

    /** How many logical cores were detected on the socket. */
    method CountSocket(ls: Lcores, s: nat) returns (n: nat)
      ensures n == Later(ls, s, 0, |ls|)
    {
      n := 0;
      for i := 0 to |ls|
        invariant n == Later(ls, s, 0, i)
      {
        if ls[i].Some? && ls[i].value.socket == s {
          n := n + 1;
        }
      }
    }

    /** cpu_core_map_compute_eal: fails exactly when some socket fills all the cores the map has room for. */
    method Compute(ls: Lcores) returns (ok: bool)
      requires 0 < cells.Length1 && forall s :: 0 <= s < cells.Length0 ==> FewThreads(ls, s, cells.Length2)
      requires forall s, c, h :: 0 <= s < cells.Length0 && 0 <= c < cells.Length1 && 0 <= h < cells.Length2 ==>
        cells[s, c, h] == -1
      modifies cells
      ensures ok == forall s :: 0 <= s < cells.Length0 ==> |AllCores(ls, s)| < cells.Length1
      ensures ok ==> forall s :: 0 <= s < cells.Length0 ==> Shows(ls, s, AllCores(ls, s))
    {
      for s := 0 to cells.Length0
        invariant forall t :: 0 <= t < s ==> |AllCores(ls, t)| < cells.Length1 && Shows(ls, t, AllCores(ls, t))
        invariant forall t, c, h :: s <= t < cells.Length0 && 0 <= c < cells.Length1 && 0 <= h < cells.Length2 ==>
          cells[t, c, h] == -1
      {
        assert Blank(s);
        var fits := ComputeSocket(ls, s);
        if !fits {
          return false;
        }
      }
      return true;
    }

    /** What a successful computation leaves. */
    ghost predicate Computed(ls: Lcores)
      reads cells
    {
      && 0 < cells.Length0 && 0 < cells.Length1 && 0 < cells.Length2
      && forall s :: 0 <= s < cells.Length0 ==>
           Shows(ls, s, AllCores(ls, s)) && FewThreads(ls, s, cells.Length2) && |AllCores(ls, s)| < cells.Length1
    }

    lemma CellTells(ls: Lcores, s: nat, c: nat, h: nat)
      requires Computed(ls) && s < cells.Length0 && c < cells.Length1 && h < cells.Length2
      ensures cells[s, c, h] != -1 <==> h < ThreadsAt(ls, s, c)
      ensures ThreadsAt(ls, s, c) <= cells.Length2
    {
      assert Shows(ls, s, AllCores(ls, s)) && FewThreads(ls, s, cells.Length2);
    }

    /** The three counting loops of cpu_core_map_compute_and_check. */
    method MeasureHt(ghost ls: Lcores) returns (n: nat)
      requires Computed(ls)
      ensures n == ThreadsAt(ls, 0, 0)
    {
      CellTells(ls, 0, 0, 0);
      n := 0;
      while n < cells.Length2 && cells[0, 0, n] != -1
        invariant n <= ThreadsAt(ls, 0, 0) <= cells.Length2
      {
        CellTells(ls, 0, 0, n);
        n := n + 1;
      }
      if n < cells.Length2 {
        CellTells(ls, 0, 0, n);
      }
    }

    method MeasureCores(ghost ls: Lcores) returns (n: nat)
      requires Computed(ls)
      ensures n == |AllCores(ls, 0)|
    {
      n := 0;
      while n < cells.Length1 && cells[0, n, 0] != -1
        invariant n <= |AllCores(ls, 0)| < cells.Length1
      {
        CellTells(ls, 0, n, 0);
        n := n + 1;
      }
      CellTells(ls, 0, n, 0);
    }

    method MeasureSockets(ghost ls: Lcores) returns (n: nat)
      requires Computed(ls)
      ensures n == Leading(ls, 0, cells.Length0)
    {
      n := 0;
      while n < cells.Length0 && cells[n, 0, 0] != -1
        invariant n <= cells.Length0 && Leading(ls, 0, cells.Length0) == Leading(ls, n, cells.Length0)
      {
        CellTells(ls, n, 0, 0);
        n := n + 1;
      }
      if n < cells.Length0 {
        CellTells(ls, n, 0, 0);
      }
    }

    /** One core has exactly the hyper-threads it should have. */
    method CheckCore(ghost ls: Lcores, s: nat, c: nat) returns (same: bool)
      requires Computed(ls) && s < cells.Length0 && c < cells.Length1 && nHt <= cells.Length2
      ensures same == (ThreadsAt(ls, s, c) == if c < nCores then nHt else 0)
    {
      var want := if c < nCores then nHt else 0;
      for h := 0 to cells.Length2
        invariant if want < h then ThreadsAt(ls, s, c) == want else ThreadsAt(ls, s, c) >= h
      {
        CellTells(ls, s, c, h);
        if (h < want && cells[s, c, h] == -1) || (h >= want && cells[s, c, h] != -1) {
          return false;
        }
      }
      CellTells(ls, s, c, 0);
      return true;
    }

    /** Exactly `nHt` hyper-threads on each of exactly `nCores` cores. */
    method CheckSocket(ghost ls: Lcores, s: nat) returns (same: bool)
      requires Computed(ls) && s < cells.Length0 && nCores <= cells.Length1 && 0 < nHt <= cells.Length2
      ensures same == SocketRegular(ls, s, nCores, nHt)
    {
      RegularIff(ls, s, nCores, nHt, cells.Length1);
      for c := 0 to cells.Length1
        invariant forall d :: 0 <= d < c ==> ThreadsAt(ls, s, d) == if d < nCores then nHt else 0
      {
        var fits := CheckCore(ls, s, c);
        if !fits {
          return false;
        }
      }
      return true;
    }

    method CheckAll(ghost ls: Lcores) returns (same: bool)
      requires Computed(ls) && nSockets <= cells.Length0 && nCores <= cells.Length1 && 0 < nHt <= cells.Length2
      ensures same == forall t :: 0 <= t < nSockets ==> SocketRegular(ls, t, nCores, nHt)
    {
      for s := 0 to nSockets
        invariant forall t :: 0 <= t < s ==> SocketRegular(ls, t, nCores, nHt)
      {
        var fits := CheckSocket(ls, s);
        if !fits {
          return false;
        }
      }
      return true;
    }

    /** cpu_core_map_compute_and_check. */
    method Check(ghost ls: Lcores) returns (ok: bool)
      requires Computed(ls)
      modifies this
      ensures nHt == ThreadsAt(ls, 0, 0) && nCores == |AllCores(ls, 0)| && nSockets == Leading(ls, 0, cells.Length0)
      ensures ok == Regular(ls, nSockets, nCores, nHt)
    {
      nHt := MeasureHt(ls);
      nCores := MeasureCores(ls);
      nSockets := MeasureSockets(ls);
      CellTells(ls, 0, 0, 0);
      if nHt == 0 || nCores == 0 || nSockets == 0 {
        return false;
      }
      ok := CheckAll(ls);
    }

    /** cpu_core_map_get_lcore_id. */
    method GetLcoreId(ghost ls: Lcores, s: nat, c: nat, h: nat) returns (id: int)
      requires Computed(ls) && nSockets <= cells.Length0 && nCores <= cells.Length1 && nHt <= cells.Length2
      ensures id == if s < nSockets && c < nCores && h < nHt then Entry(ls, s, AllCores(ls, s), c, h) else -1
    {
      if s >= nSockets || c >= nCores || h >= nHt {
        return -1;
      }
      assert Shows(ls, s, AllCores(ls, s));
      return cells[s, c, h];
    }
  }

  /** The first socket from `s` on without a core. */
  function Leading(ls: Lcores, s: nat, n: nat): (r: nat)
    requires s <= n
    ensures s <= r <= n && forall t :: s <= t < r ==> AllCores(ls, t) != []
    ensures r < n ==> AllCores(ls, r) == []
    decreases n - s
  {
    if s == n || AllCores(ls, s) == [] then s else Leading(ls, s + 1, n)
  }

  /** How many logical cores the `c`-th core of a socket has; none if there is no such core. */
  function ThreadsAt(ls: Lcores, s: nat, c: nat): nat {
    if c < |AllCores(ls, s)| then |Threads(ls, s, AllCores(ls, s)[c])| else 0
  }

  ghost predicate SocketRegular(ls: Lcores, s: nat, nCores: nat, nHt: nat) {
    |AllCores(ls, s)| == nCores && forall c :: 0 <= c < nCores ==> |Threads(ls, s, AllCores(ls, s)[c])| == nHt
  }

  lemma RegularIff(ls: Lcores, s: nat, nCores: nat, nHt: nat, maxCores: nat)
    requires |AllCores(ls, s)| < maxCores && nCores <= maxCores && nHt > 0
    ensures SocketRegular(ls, s, nCores, nHt)
       <==> forall c :: 0 <= c < maxCores ==> ThreadsAt(ls, s, c) == if c < nCores then nHt else 0
  {
    var k := |AllCores(ls, s)|;
    if forall c :: 0 <= c < maxCores ==> ThreadsAt(ls, s, c) == if c < nCores then nHt else 0 {
      assert ThreadsAt(ls, s, k) == 0;
      assert forall c :: 0 <= c < k ==> ThreadsAt(ls, s, c) > 0;
      assert !(k < nCores) && !(nCores < k && ThreadsAt(ls, s, nCores) > 0);
      forall c | 0 <= c < nCores ensures |Threads(ls, s, AllCores(ls, s)[c])| == nHt {
        assert ThreadsAt(ls, s, c) == nHt;
      }
    }
  }

  /** Every socket below `nSockets` has exactly `nCores` cores of exactly `nHt` hyper-threads. */
  ghost predicate Regular(ls: Lcores, nSockets: nat, nCores: nat, nHt: nat) {
    nSockets > 0 && nCores > 0 && nHt > 0 && forall s :: 0 <= s < nSockets ==> SocketRegular(ls, s, nCores, nHt)
  }

  /** No core has more logical cores than the map has room for. */
  ghost predicate FewThreads(ls: Lcores, s: nat, maxHt: nat) { forall c: nat :: |Threads(ls, s, c)| <= maxHt }

  lemma {:induction false} CoresGrow(ls: Lcores, s: nat, k: nat, k': nat)
    requires k <= k'
    ensures |Cores(ls, s, k)| <= |Cores(ls, s, k')|
    decreases k'
  {
    if k < k' {
      CoresGrow(ls, s, k, k' - 1);
    }
  }

  lemma SearchDone(ls: Lcores, s: nat, core: nat)
    requires Later(ls, s, core, |ls|) == 0
    ensures Cores(ls, s, core) == AllCores(ls, s)
  {
    if core <= Bound(ls) {
      CoresDone(ls, s, core, Bound(ls));
    } else {
      AllPlaced(ls, s);
      CoresDone(ls, s, Bound(ls), core);
    }
  }

  lemma AllPlaced(ls: Lcores, s: nat)
    ensures Later(ls, s, Bound(ls), |ls|) == 0
  {
    if Later(ls, s, Bound(ls), |ls|) > 0 {
      LaterBound(ls, s, Bound(ls), |ls|);
    }
  }

  ghost predicate Growing(ls: Lcores, s: nat, c: nat, n: nat)
    requires n <= |ls|
  {
    |Ids(ls, s, c, n)| <= |Threads(ls, s, c)|
  }

  lemma {:induction false} IdsGrow(ls: Lcores, s: nat, c: nat, n: nat, m: nat)
    requires n <= m <= |ls|
    ensures |Ids(ls, s, c, n)| <= |Ids(ls, s, c, m)|
    decreases m
  {
    if n < m {
      IdsGrow(ls, s, c, n, m - 1);
    }
  }

  // ----- the map is a bijection

  function LcoreAt(ls: Lcores, s: nat, c: nat, h: nat): int { Entry(ls, s, AllCores(ls, s), c, h) }

  ghost predicate InBox(nSockets: nat, nCores: nat, nHt: nat, s: nat, c: nat, h: nat) {
    s < nSockets && c < nCores && h < nHt
  }

  /** Every place of the box names a logical core, of that socket and of the core in that place. */
  lemma BoxTotal(ls: Lcores, nSockets: nat, nCores: nat, nHt: nat, s: nat, c: nat, h: nat)
    requires Regular(ls, nSockets, nCores, nHt) && InBox(nSockets, nCores, nHt, s, c, h)
    ensures c < |AllCores(ls, s)| && 0 <= LcoreAt(ls, s, c, h) < |ls|
    ensures ls[LcoreAt(ls, s, c, h)] == Some(Lcore(s, AllCores(ls, s)[c]))
  {
    assert SocketRegular(ls, s, nCores, nHt);
  }

  /** No logical core is named twice. */
  lemma BoxInjective(ls: Lcores, nSockets: nat, nCores: nat, nHt: nat, s: nat, c: nat, h: nat, s': nat, c': nat,
      h': nat)
    requires Regular(ls, nSockets, nCores, nHt)
    requires InBox(nSockets, nCores, nHt, s, c, h) && InBox(nSockets, nCores, nHt, s', c', h')
    requires LcoreAt(ls, s, c, h) == LcoreAt(ls, s', c', h')
    ensures s == s' && c == c' && h == h'
  {
    BoxTotal(ls, nSockets, nCores, nHt, s, c, h);
    BoxTotal(ls, nSockets, nCores, nHt, s', c', h');
    assert SocketRegular(ls, s, nCores, nHt);
  }

  /** Every logical core of the counted sockets is named. */
  lemma BoxCovers(ls: Lcores, nSockets: nat, nCores: nat, nHt: nat, i: nat) returns (c: nat, h: nat)
    requires Regular(ls, nSockets, nCores, nHt) && i < |ls| && ls[i].Some? && ls[i].value.socket < nSockets
    ensures InBox(nSockets, nCores, nHt, ls[i].value.socket, c, h) && LcoreAt(ls, ls[i].value.socket, c, h) == i
  {
    var l := ls[i].value;
    assert SocketRegular(ls, l.socket, nCores, nHt);
    IdsComplete(ls, l.socket, l.core, |ls|, i);
    CoresComplete(ls, l.socket, l.core, Bound(ls));
    c :| 0 <= c < |AllCores(ls, l.socket)| && AllCores(ls, l.socket)[c] == l.core;
    h :| 0 <= h < |Threads(ls, l.socket, l.core)| && Threads(ls, l.socket, l.core)[h] == i;
  }

  /** Places are in order of core id, and within a core of logical core id. */
  lemma BoxOrdered(ls: Lcores, nSockets: nat, nCores: nat, nHt: nat, s: nat, c: nat, h: nat, c': nat, h': nat)
    requires Regular(ls, nSockets, nCores, nHt)
    requires InBox(nSockets, nCores, nHt, s, c, h) && InBox(nSockets, nCores, nHt, s, c', h')
    ensures c < |AllCores(ls, s)| && c' < |AllCores(ls, s)| && (c < c' ==> AllCores(ls, s)[c] < AllCores(ls, s)[c'])
    ensures c == c' && h < h' ==> LcoreAt(ls, s, c, h) < LcoreAt(ls, s, c', h')
  {
    BoxTotal(ls, nSockets, nCores, nHt, s, c, h);
    BoxTotal(ls, nSockets, nCores, nHt, s, c', h');
    assert SocketRegular(ls, s, nCores, nHt);
  }

  /** A regular topology that leaves a core free on every socket. */
  ghost predicate Accepted(maxSockets: nat, maxCores: nat, maxHt: nat, ls: Lcores) {
    && maxSockets > 0 && maxCores > 0 && maxHt > 0
    && (forall s :: 0 <= s < maxSockets ==> |AllCores(ls, s)| < maxCores)
    && Regular(ls, Leading(ls, 0, maxSockets), |AllCores(ls, 0)|, ThreadsAt(ls, 0, 0))
  }

  /** cpu_core_map_init: succeeds exactly on a topology so accepted. */
  method Init(maxSockets: nat, maxCores: nat, maxHt: nat, ls: Lcores) returns (m: CoreMap?)
    requires forall s :: 0 <= s < maxSockets ==> FewThreads(ls, s, maxHt)
    ensures m != null <==> Accepted(maxSockets, maxCores, maxHt, ls)
    ensures m != null ==> m.Computed(ls) && Regular(ls, m.nSockets, m.nCores, m.nHt)
    ensures m != null && m.nSockets < maxSockets ==> AllCores(ls, m.nSockets) == []
    ensures m != null ==> m.nSockets <= m.cells.Length0 && m.nCores <= m.cells.Length1 && m.nHt <= m.cells.Length2
  {
    if maxSockets == 0 || maxCores == 0 || maxHt == 0 {
      return null;
    }
    var built := new CoreMap(maxSockets, maxCores, maxHt);
    var ok := built.Compute(ls);
    if !ok {
      return null;
    }
    ok := built.Check(ls);
    if !ok {
      return null;
    }
    built.CellTells(ls, 0, 0, 0);
    return built;
  }

  // ----- a socket that fills the map

  lemma TwoCores(ls: Lcores)
    requires ls == [Some(Lcore(0, 0)), Some(Lcore(0, 1))]
    ensures AllCores(ls, 0) == [0, 1] && Threads(ls, 0, 0) == [0] && Threads(ls, 0, 1) == [1]
  {
    assert Ids(ls, 0, 0, 1) == [0] && Ids(ls, 0, 1, 1) == [];
    assert Threads(ls, 0, 0) == [0] && Threads(ls, 0, 1) == [1];
    assert ls[..1] == [ls[0]] && Bound(ls[..1]) == 1 && Bound(ls) == 2;
    CoresStep(ls, 0, 0);
    CoresStep(ls, 0, 1);
  }

  lemma CoresStep(ls: Lcores, s: nat, k: nat)
    ensures Cores(ls, s, k + 1) == Cores(ls, s, k) + (if Threads(ls, s, k) != [] then [k] else [])
  {
  }

  /** One socket of two cores fits a map of one socket and two cores; it is refused, but not with room for a third. */
  lemma FullSocketRefused(ls: Lcores)
    requires ls == [Some(Lcore(0, 0)), Some(Lcore(0, 1))]
    ensures Regular(ls, 1, 2, 1) && !Accepted(1, 2, 1, ls) && Accepted(1, 3, 1, ls)
  {
    TwoCores(ls);
    assert SocketRegular(ls, 0, 2, 1);
  }
}
