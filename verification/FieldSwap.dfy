/** Swapping adjacent fields of a packet by masked word swaps. */
module FieldSwap {
  import opened PacketMemory

  type uint32 = x: int | 0 <= x < 0x1_0000_0000

  const SIZE_MAX := 16
  const FIELDS_MAX := 8
  const SWAP_DIM := 16

  // ----- sequences

  /** Exchanges the `n` elements at `o` with the `n` elements at `o + d`. */
  function Trade<T>(m: seq<T>, o: nat, d: nat, n: nat): (r: seq<T>)
    requires n <= d && o + d + n <= |m|
    ensures |r| == |m|
  {
    seq(|m|, j requires 0 <= j < |m| => m[Partner(j, o, d, n)])
  }

  /** Where an element comes from in a trade. */
  function Partner(j: nat, o: nat, d: nat, n: nat): (p: nat) {
    if o <= j < o + n then j + d else if o + d <= j < o + d + n && d <= j then j - d else j
  }

  /** The stores may overlap: the second puts right what the first spilled on. */
  lemma StoresTrade<T>(m: seq<T>, o: nat, d: nat, n: nat, w0: seq<T>, w1: seq<T>)
    requires 1 <= n <= 8 && n <= d && o + d + 8 <= |m| && |w0| == |w1| == 8
    requires forall k :: 0 <= k < 8 ==> w0[k] == if k < n then m[o + d + k] else m[o + k]
    requires forall k :: 0 <= k < 8 ==> w1[k] == if k < n then m[o + k] else m[o + d + k]
    ensures Overwrite(Overwrite(m, o, w0), o + d, w1) == Trade(m, o, d, n)
  {
  }

  lemma TradesJoin<T>(m: seq<T>, o: nat, d: nat, a: nat, b: nat)
    requires a + b <= d && o + d + a + b <= |m|
    ensures Trade(Trade(m, o, d, a), o + a, d, b) == Trade(m, o, d, a + b)
  {
  }

  // ----- words

  /** The first `n` elements of `b`, the rest of `a`. */
  function Splice<T>(n: nat, a: seq<T>, b: seq<T>): (r: seq<T>)
    requires n <= |a| == |b|
    ensures |r| == |a|
  {
    b[..n] + a[n..]
  }

  /** A masked word swap whose mask covers the low `bytes` bytes. */
  datatype Word = Word(offset0: uint32, offset1: uint32, bytes: nat)

  predicate InMemory(length: nat, w: Word) {
    w.offset0 + 8 <= length && w.offset1 + 8 <= length && 1 <= w.bytes <= 8
  }

  /** Both words are read before either is written. */
  function SwapWord<T>(m: seq<T>, w: Word): (r: seq<T>)
    requires InMemory(|m|, w)
    ensures |r| == |m|
  {
    var field0, field1 := m[w.offset0..w.offset0 + 8], m[w.offset1..w.offset1 + 8];
    Overwrite(Overwrite(m, w.offset0, Splice(w.bytes, field0, field1)), w.offset1, Splice(w.bytes, field1, field0))
  }

  /** One masked word swap trades exactly the masked bytes, even when the two words overlap. */
  lemma SwapWordIsTrade<T>(m: seq<T>, w: Word, o: nat, d: nat, n: nat)
    requires InMemory(|m|, w) && w.offset0 == o && w.offset1 == o + d && w.bytes == n <= d
    ensures SwapWord(m, w) == Trade(m, o, d, n)
  {
    var b, c := m[o..o + 8], m[o + d..o + d + 8];
    StoresTrade(m, o, d, n, Splice(n, b, c), Splice(n, c, b));
  }

  // ----- the conversion

  datatype Pair = Pair(offset0: uint32, offset1: uint32)

  function Size(p: Pair): int { p.offset1 - p.offset0 }

  predicate Acceptable(p: Pair) { p.offset0 < p.offset1 && Size(p) <= SIZE_MAX }

  predicate AllAcceptable(ps: seq<Pair>) { forall i :: 0 <= i < |ps| ==> Acceptable(ps[i]) }

  function Plus8(o: uint32): uint32 { (o + 8) % 0x1_0000_0000 }

  /** The words one pair becomes: whole words, then a masked one for the rest. */
  function Tail(offset0: uint32, offset1: uint32, rest: nat): (ws: seq<Word>)
    requires rest < 8
  {
    if rest == 0 then [] else [Word(offset0, offset1, rest)]
  }

  function WordsOf(p: Pair): (ws: seq<Word>)
    requires Acceptable(p)
    ensures 1 <= |ws| <= 2
  {
    var size := Size(p);
    if size < 8 then Tail(p.offset0, p.offset1, size)
    else if size < 16 then [Word(p.offset0, p.offset1, 8)] + Tail(Plus8(p.offset0), Plus8(p.offset1), size - 8)
    else [Word(p.offset0, p.offset1, 8), Word(Plus8(p.offset0), Plus8(p.offset1), 8)]
  }

  function AllWords(ps: seq<Pair>): (ws: seq<Word>)
    requires AllAcceptable(ps)
    ensures |ws| <= 2 * |ps|
  {
    if ps == [] then [] else AllWords(ps[..|ps| - 1]) + WordsOf(ps[|ps| - 1])
  }

  // ----- what the words do

  predicate AllInMemory(length: nat, ws: seq<Word>) { forall i :: 0 <= i < |ws| ==> InMemory(length, ws[i]) }

  function Run<T>(m: seq<T>, ws: seq<Word>): (r: seq<T>)
    requires AllInMemory(|m|, ws)
    ensures |r| == |m|
  {
    if ws == [] then m else SwapWord(Run(m, ws[..|ws| - 1]), ws[|ws| - 1])
  }

  lemma {:induction false} RunAppend<T>(m: seq<T>, xs: seq<Word>, ys: seq<Word>)
    requires AllInMemory(|m|, xs) && AllInMemory(|m|, ys)
    ensures AllInMemory(|m|, xs + ys) && Run(m, xs + ys) == Run(Run(m, xs), ys)
    decreases |ys|
  {
    if ys == [] {
      assert xs + ys == xs;
    } else {
      var n := |ys| - 1;
      assert (xs + ys)[..|xs + ys| - 1] == xs + ys[..n];
      RunAppend(m, xs, ys[..n]);
    }
  }

  /** The packet has room for the last word of the pair. */
  predicate Fits(length: nat, p: Pair) {
    length <= 0x1_0000_0000 && p.offset1 + (if Size(p) <= 8 then 8 else 16) <= length
  }

  /** The two adjacent fields of a pair change places. */
  function Exchange<T>(m: seq<T>, p: Pair): (r: seq<T>)
    requires Acceptable(p) && Fits(|m|, p)
    ensures |r| == |m|
  {
    Trade(m, p.offset0, Size(p), Size(p))
  }

  /** Byte by byte: the first field gets the second, the second the first, and every other byte stays. */
  lemma ExchangeAt<T>(m: seq<T>, p: Pair, j: nat)
    requires Acceptable(p) && Fits(|m|, p) && j < |m|
    ensures Exchange(m, p)[j] ==
      if p.offset0 <= j < p.offset1 then m[j + (p.offset1 - p.offset0)]
      else if p.offset1 <= j < 2 * p.offset1 - p.offset0 then m[j - (p.offset1 - p.offset0)]
      else m[j]
  {
  }

  lemma RunOne<T>(m: seq<T>, w: Word)
    requires InMemory(|m|, w)
    ensures Run(m, [w]) == SwapWord(m, w)
  {
    assert [w][..0] == [];
  }

  lemma RunTwo<T>(m: seq<T>, ws: seq<Word>)
    requires |ws| == 2 && InMemory(|m|, ws[0]) && InMemory(|m|, ws[1])
    ensures AllInMemory(|m|, ws) && Run(m, ws) == SwapWord(SwapWord(m, ws[0]), ws[1])
  {
    RunOne(m, ws[0]);
    assert ws[..1] == [ws[0]];
  }

  lemma SmallPair<T>(m: seq<T>, p: Pair)
    requires Acceptable(p) && Fits(|m|, p) && Size(p) <= 8
    ensures AllInMemory(|m|, WordsOf(p)) && Run(m, WordsOf(p)) == Exchange(m, p)
  {
    var w := Word(p.offset0, p.offset1, Size(p));
    assert WordsOf(p) == [w];
    SwapWordIsTrade(m, w, p.offset0, Size(p), Size(p));
    RunOne(m, w);
  }

  lemma TwoSwapsTrade<T>(m: seq<T>, p: Pair, v: Word, w: Word)
    requires Acceptable(p) && Fits(|m|, p) && Size(p) > 8
    requires v == Word(p.offset0, p.offset1, 8) && w == Word(p.offset0 + 8, p.offset1 + 8, Size(p) - 8)
    ensures SwapWord(SwapWord(m, v), w) == Exchange(m, p)
  {
    var o, d := p.offset0, Size(p);
    SwapWordIsTrade(m, v, o, d, 8);
    SwapWordIsTrade(Trade(m, o, d, 8), w, o + 8, d, d - 8);
    TradesJoin(m, o, d, 8, d - 8);
  }

  lemma LargeWords(p: Pair, length: nat)
    requires Acceptable(p) && Fits(length, p) && Size(p) > 8
    ensures |WordsOf(p)| == 2 && WordsOf(p)[0] == Word(p.offset0, p.offset1, 8)
    ensures WordsOf(p)[1] == Word(p.offset0 + 8, p.offset1 + 8, Size(p) - 8)
  {
  }

  lemma LargePair<T>(m: seq<T>, p: Pair)
    requires Acceptable(p) && Fits(|m|, p) && Size(p) > 8
    ensures AllInMemory(|m|, WordsOf(p)) && Run(m, WordsOf(p)) == Exchange(m, p)
  {
    LargeWords(p, |m|);
    RunTwo(m, WordsOf(p));
    TwoSwapsTrade(m, p, WordsOf(p)[0], WordsOf(p)[1]);
  }

  /** The words of a pair exchange its two fields and touch no other byte. */
  lemma WordsExchange<T>(m: seq<T>, p: Pair)
    requires Acceptable(p) && Fits(|m|, p)
    ensures AllInMemory(|m|, WordsOf(p)) && Run(m, WordsOf(p)) == Exchange(m, p)
  {
    if Size(p) <= 8 {
      SmallPair(m, p);
    } else {
      LargePair(m, p);
    }
  }

  // ----- lists of pairs

  predicate AllFit(length: nat, ps: seq<Pair>) { forall i :: 0 <= i < |ps| ==> Fits(length, ps[i]) }

  function ExchangeAll<T>(m: seq<T>, ps: seq<Pair>): (r: seq<T>)
    requires AllAcceptable(ps) && AllFit(|m|, ps)
    ensures |r| == |m|
  {
    if ps == [] then m else Exchange(ExchangeAll(m, ps[..|ps| - 1]), ps[|ps| - 1])
  }

  lemma {:induction false} AllWordsExchange<T>(m: seq<T>, ps: seq<Pair>)
    requires AllAcceptable(ps) && AllFit(|m|, ps)
    ensures AllInMemory(|m|, AllWords(ps)) && Run(m, AllWords(ps)) == ExchangeAll(m, ps)
    decreases |ps|
  {
    if ps != [] {
      var n := |ps| - 1;
      AllWordsExchange(m, ps[..n]);
      var m' := ExchangeAll(m, ps[..n]);
      WordsExchange(m', ps[n]);
      assert AllInMemory(|m|, WordsOf(ps[n]));
      RunAppend(m, AllWords(ps[..n]), WordsOf(ps[n]));
    }
  }

  predicate Apart(p: Pair, q: Pair) {
    p.offset1 + Size(p) <= q.offset0 || q.offset1 + Size(q) <= p.offset0
  }

  predicate Disjoint(ps: seq<Pair>) { forall i, j :: 0 <= i < j < |ps| ==> Apart(ps[i], ps[j]) }

  predicate Inside(p: Pair, j: nat) { p.offset0 <= j < 2 * p.offset1 - p.offset0 }

  lemma ExchangeSame<T>(m: seq<T>, m': seq<T>, p: Pair, j: nat)
    requires Acceptable(p) && |m| == |m'| && Fits(|m|, p) && j < |m| && Inside(p, j)
    requires forall k :: 0 <= k < |m| && Inside(p, k) ==> m'[k] == m[k]
    ensures Exchange(m', p)[j] == Exchange(m, p)[j]
  {
    ExchangeAt(m, p, j);
    ExchangeAt(m', p, j);
  }

  /** A byte outside all pairs stays. */
  lemma {:induction false} ExchangeAllElsewhere<T>(m: seq<T>, ps: seq<Pair>, j: nat)
    requires AllAcceptable(ps) && AllFit(|m|, ps) && j < |m| && forall i :: 0 <= i < |ps| ==> !Inside(ps[i], j)
    ensures ExchangeAll(m, ps)[j] == m[j]
    decreases |ps|
  {
    if ps != [] {
      var n := |ps| - 1;
      ExchangeAllElsewhere(m, ps[..n], j);
      assert !Inside(ps[n], j);
      ExchangeAt(ExchangeAll(m, ps[..n]), ps[n], j);
    }
  }

  lemma ApartInside(p: Pair, q: Pair, j: nat)
    requires Acceptable(p) && Acceptable(q) && Apart(p, q)
    ensures !(Inside(p, j) && Inside(q, j))
  {
  }

  /** Of disjoint pairs each exchanges its own fields, as it would alone. */
  lemma {:induction false} ExchangeAllAt<T>(m: seq<T>, ps: seq<Pair>, i: nat, j: nat)
    requires AllAcceptable(ps) && AllFit(|m|, ps) && Disjoint(ps) && i < |ps| && j < |m| && Inside(ps[i], j)
    ensures ExchangeAll(m, ps)[j] == Exchange(m, ps[i])[j]
    decreases |ps|
  {
    var n := |ps| - 1;
    var once := ExchangeAll(m, ps[..n]);
    if i < n {
      ExchangeAllAt(m, ps[..n], i, j);
      ApartInside(ps[i], ps[n], j);
      ExchangeAt(once, ps[n], j);
    } else {
      forall k | 0 <= k < |m| && Inside(ps[n], k) ensures once[k] == m[k] {
        forall x | 0 <= x < n ensures !Inside(ps[..n][x], k) {
          ApartInside(ps[x], ps[n], k);
        }
        ExchangeAllElsewhere(m, ps[..n], k);
      }
      ExchangeSame(m, once, ps[n], j);
    }
  }

  lemma ExchangeTwice<T>(m: seq<T>, p: Pair)
    requires Acceptable(p) && Fits(|m|, p)
    ensures Exchange(Exchange(m, p), p) == m
  {
  }

  lemma ExchangesCommute<T>(m: seq<T>, p: Pair, q: Pair)
    requires Acceptable(p) && Acceptable(q) && Fits(|m|, p) && Fits(|m|, q) && Apart(p, q)
    ensures Exchange(Exchange(m, p), q) == Exchange(Exchange(m, q), p)
  {
  }

  lemma {:induction false} ExchangePast<T>(m: seq<T>, ps: seq<Pair>, q: Pair)
    requires AllAcceptable(ps) && AllFit(|m|, ps) && Acceptable(q) && Fits(|m|, q)
    requires forall i :: 0 <= i < |ps| ==> Apart(ps[i], q)
    ensures ExchangeAll(Exchange(m, q), ps) == Exchange(ExchangeAll(m, ps), q)
    decreases |ps|
  {
    if ps != [] {
      var n := |ps| - 1;
      ExchangePast(m, ps[..n], q);
      ExchangesCommute(ExchangeAll(m, ps[..n]), ps[n], q);
    }
  }

  /** Disjoint swaps applied twice give the packet back. */
  lemma {:induction false} TwiceIsIdentity<T>(m: seq<T>, ps: seq<Pair>)
    requires AllAcceptable(ps) && AllFit(|m|, ps) && Disjoint(ps)
    ensures ExchangeAll(ExchangeAll(m, ps), ps) == m
    decreases |ps|
  {
    if ps != [] {
      var n := |ps| - 1;
      var once := ExchangeAll(m, ps[..n]);
      ExchangePast(once, ps[..n], ps[n]);
      TwiceIsIdentity(m, ps[..n]);
      ExchangeTwice(m, ps[n]);
    }
  }
}
