/** Which logical cores make up which core of which socket. */
module CoreTopology {
  import opened Basics

  /** A detected logical core's socket and core id. */
  datatype Lcore = Lcore(socket: nat, core: nat)

  type Lcores = seq<Option<Lcore>>

  /** The logical cores of one core, among the first `n`, in order. */
  function Ids(ls: Lcores, s: nat, c: nat, n: nat): (r: seq<nat>)
    requires n <= |ls|
    ensures forall i :: 0 <= i < |r| ==> r[i] < n && ls[r[i]] == Some(Lcore(s, c))
    ensures forall i, j :: 0 <= i < j < |r| ==> r[i] < r[j]
  {
    if n == 0 then [] else Ids(ls, s, c, n - 1) + (if ls[n - 1] == Some(Lcore(s, c)) then [n - 1] else [])
  }

  function Threads(ls: Lcores, s: nat, c: nat): seq<nat> { Ids(ls, s, c, |ls|) }

  /** The core ids below `k` that occur on a socket, in order. */
  function Cores(ls: Lcores, s: nat, k: nat): (r: seq<nat>)
    ensures forall i :: 0 <= i < |r| ==> r[i] < k && Threads(ls, s, r[i]) != []
    ensures forall i, j :: 0 <= i < j < |r| ==> r[i] < r[j]
  {
    if k == 0 then [] else Cores(ls, s, k - 1) + (if Threads(ls, s, k - 1) != [] then [k - 1] else [])
  }

  /** How many of the first `n` logical cores are on the socket with a core id of at least `k`. */
  function Later(ls: Lcores, s: nat, k: nat, n: nat): nat
    requires n <= |ls|
  {
    if n == 0 then 0
    else
      var l := ls[n - 1];
      Later(ls, s, k, n - 1) + (if l.Some? && l.value.socket == s && l.value.core >= k then 1 else 0)
  }

  lemma {:induction false} LaterStep(ls: Lcores, s: nat, k: nat, n: nat)
    requires n <= |ls|
    ensures Later(ls, s, k, n) == Later(ls, s, k + 1, n) + |Ids(ls, s, k, n)|
    decreases n
  {
    if n != 0 {
      LaterStep(ls, s, k, n - 1);
    }
  }

  /** A bound on core ids. */
  function Bound(ls: Lcores): (b: nat)
    ensures forall i :: 0 <= i < |ls| && ls[i].Some? ==> ls[i].value.core < b
  {
    if ls == [] then 0
    else
      var b := Bound(ls[..|ls| - 1]);
      var l := ls[|ls| - 1];
      if l.Some? && l.value.core >= b then l.value.core + 1 else b
  }

  /** While some are left to place, the search for core ids has not passed the bound. */
  lemma {:induction false} LaterBound(ls: Lcores, s: nat, k: nat, n: nat)
    requires n <= |ls| && Later(ls, s, k, n) > 0
    ensures k < Bound(ls)
    decreases n
  {
    if !(ls[n - 1].Some? && ls[n - 1].value.socket == s && ls[n - 1].value.core >= k) {
      LaterBound(ls, s, k, n - 1);
    }
  }

  lemma {:induction false} CoresDone(ls: Lcores, s: nat, k: nat, k': nat)
    requires k <= k' && Later(ls, s, k, |ls|) == 0
    ensures Cores(ls, s, k') == Cores(ls, s, k) && Later(ls, s, k', |ls|) == 0
    decreases k'
  {
    if k < k' {
      CoresDone(ls, s, k, k' - 1);
      LaterStep(ls, s, k' - 1, |ls|);
    }
  }

  /** The cores of a socket, and a socket's part of the map. */
  function AllCores(ls: Lcores, s: nat): seq<nat> { Cores(ls, s, Bound(ls)) }

  function Entry(ls: Lcores, s: nat, cores: seq<nat>, c: nat, h: nat): int {
    if c < |cores| && h < |Threads(ls, s, cores[c])| then Threads(ls, s, cores[c])[h] else -1
  }

  // ----- every logical core is found

  lemma {:induction false} IdsComplete(ls: Lcores, s: nat, c: nat, n: nat, i: nat)
    requires i < n <= |ls| && ls[i] == Some(Lcore(s, c))
    ensures i in Ids(ls, s, c, n)
    decreases n
  {
    if i < n - 1 {
      IdsComplete(ls, s, c, n - 1, i);
    }
  }

  lemma {:induction false} CoresComplete(ls: Lcores, s: nat, c: nat, k: nat)
    requires c < k && Threads(ls, s, c) != []
    ensures c in Cores(ls, s, k)
    decreases k
  {
    if c < k - 1 {
      CoresComplete(ls, s, c, k - 1);
    }
  }
}
