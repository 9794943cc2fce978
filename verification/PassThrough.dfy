/** The pass-through pipeline: converting swap pairs, and swapping packet fields. */
module PassThrough {
  import opened Basics
  import opened PacketMemory
  import opened SwapWords
  import opened FieldSwap

  /** The entry of the three swap arrays that stands for a word. */
  predicate Stored(field0: uint32, field1: uint32, mask: bv64, w: Word) {
    field0 == w.offset0 && field1 == w.offset1 && 1 <= w.bytes <= 8 && mask == LowMask(w.bytes)
  }

  /** The whole words of a pair. */
  function Whole(p: Pair, j: nat): (ws: seq<Word>)
    requires Acceptable(p) && j <= Size(p) / 8
    ensures |ws| == j
  {
    if j == 0 then [] else if j == 1 then WordsOf(p)[..1] else WordsOf(p)
  }

  function Step8(o: uint32, j: nat): (r: uint32) { if j == 0 then o else Plus8(Step8(o, j - 1)) }

  lemma WholeNext(p: Pair, j: nat)
    requires Acceptable(p) && j < Size(p) / 8
    ensures Whole(p, j + 1) == Whole(p, j) + [Word(Step8(p.offset0, j), Step8(p.offset1, j), 8)]
  {
  }

  lemma WholeThenRest(p: Pair)
    requires Acceptable(p)
    ensures var j := Size(p) / 8;
      WordsOf(p) == Whole(p, j) + Tail(Step8(p.offset0, j), Step8(p.offset1, j), Size(p) % 8)
  {
  }

  class PassThrough {
    const field0: array<uint32>
    const field1: array<uint32>
    const mask: array<bv64>
    var n: nat

    ghost predicate Shape() {
      && field0.Length == SWAP_DIM && field1.Length == SWAP_DIM && mask.Length == SWAP_DIM
      && field0 != field1 && mask as object != field0 && mask as object != field1
    }

    /** The arrays hold exactly these words. */
    ghost predicate Holds(ws: seq<Word>)
      reads this, field0, field1, mask
    {
      && Shape() && n == |ws| <= SWAP_DIM
      && forall i :: 0 <= i < n ==> Stored(field0[i], field1[i], mask[i], ws[i])
    }

    constructor ()
      ensures Holds([]) && fresh(field0) && fresh(field1) && fresh(mask)
    {
      field0, field1, mask := new uint32[SWAP_DIM](_ => 0), new uint32[SWAP_DIM](_ => 0), new bv64[SWAP_DIM](_ => 0);
      n := 0;
    }

    method Push(o0: uint32, o1: uint32, m: bv64, ghost bytes: nat, ghost ws: seq<Word>)
      requires Holds(ws) && n < SWAP_DIM && 1 <= bytes <= 8 && m == LowMask(bytes)
      modifies this, field0, field1, mask
      ensures Holds(ws + [Word(o0, o1, bytes)])
    {
      field0[n], field1[n] := o0, o1;
      mask[n] := m;
      n := n + 1;
    }

    /** The words of one acceptable pair. */
    method ConvertPair(p: Pair, ghost ws: seq<Word>)
      requires Holds(ws) && Acceptable(p) && n + 2 <= SWAP_DIM
      modifies this, field0, field1, mask
      ensures Holds(ws + WordsOf(p))
    {
      var offset0, offset1 := p.offset0, p.offset1;
      var size := offset1 - offset0;
      assert ws + [] == ws;
      for j := 0 to size / 8
        invariant Holds(ws + Whole(p, j))
        invariant offset0 == Step8(p.offset0, j) && offset1 == Step8(p.offset1, j)
      {
        WholeNext(p, j);
        Push(offset0, offset1, ONES, 8, ws + Whole(p, j));
        Associate(ws, Whole(p, j), [Word(offset0, offset1, 8)]);
        offset0, offset1 := Plus8(offset0), Plus8(offset1);
      }
      WholeThenRest(p);
      var j := size / 8;
      if size % 8 != 0 {
        Push(offset0, offset1, LowMask(size % 8), size % 8, ws + Whole(p, j));
        Associate(ws, Whole(p, j), [Word(offset0, offset1, size % 8)]);
      } else {
        assert WordsOf(p) == Whole(p, j);
      }
    }

    /** Fails exactly on an inadmissible pair; never needs more than the arrays' sixteen entries. */
    method SwapConvert(ps: seq<Pair>) returns (status: int)
      requires Shape() && |ps| <= FIELDS_MAX
      modifies this, field0, field1, mask
      ensures status == (if AllAcceptable(ps) then 0 else -1)
      ensures status == 0 <==>
        forall i :: 0 <= i < |ps| ==> ps[i].offset0 < ps[i].offset1 && ps[i].offset1 - ps[i].offset0 <= 16
      ensures status == 0 ==> Holds(AllWords(ps))
    {
      n := 0;
      for i := 0 to |ps|
        invariant AllAcceptable(ps[..i]) && Holds(AllWords(ps[..i]))
      {
        var p := ps[i];
        if p.offset0 >= p.offset1 || p.offset1 - p.offset0 > SIZE_MAX || n >= SWAP_DIM {
          assert !Acceptable(p);
          return -1;
        }
        assert ps[..i + 1][..i] == ps[..i];
        ConvertPair(p, AllWords(ps[..i]));
      }
      assert ps[..|ps|] == ps;
      return 0;
    }

    /** One masked swap of the packet's words. */
    method SwapAt(pkt: array<bv8>, o0: uint32, o1: uint32, m: bv64, ghost bytes: nat)
      requires InMemory(pkt.Length, Word(o0, o1, bytes)) && m == LowMask(bytes)
      modifies pkt
      ensures pkt[..] == SwapWord(old(pkt[..]), Word(o0, o1, bytes))
    {
      var e0 := LoadEight(pkt, o0);
      var e1 := LoadEight(pkt, o1);
      SwappedBytes(bytes, e0, e1);
      MixIsSplice(bytes, e0, e1);
      MixIsSplice(bytes, e1, e0);
      StoreEight(pkt, o0, Unpack(First(Pack(e0), Pack(e1), m)));
      StoreEight(pkt, o1, Unpack(Second(Pack(e0), Pack(e1), m)));
    }

    /** A packet's memory is not the pipeline's own. */
    ghost predicate Foreign(pkt: array<bv8>) {
      pkt as object != field0 && pkt as object != field1 && pkt as object != mask
    }

    method WorkWords(pkt: array<bv8>, ghost ws: seq<Word>)
      requires Holds(ws) && Foreign(pkt) && AllInMemory(pkt.Length, ws)
      modifies pkt
      ensures pkt[..] == Run(old(pkt[..]), ws)
    {
      for i := 0 to n
        invariant Holds(ws) && pkt[..] == Run(old(pkt[..]), ws[..i])
      {
        assert Stored(field0[i], field1[i], mask[i], ws[i]) && InMemory(pkt.Length, ws[i]);
        RunNext(old(pkt[..]), ws, i);
        SwapAt(pkt, field0[i], field1[i], mask[i], ws[i].bytes);
      }
      assert ws[..n] == ws;
    }

    /** Applying the converted words exchanges the fields of every pair, and nothing else. */
    method Work(pkt: array<bv8>, ghost ps: seq<Pair>)
      requires AllAcceptable(ps) && Holds(AllWords(ps)) && Foreign(pkt) && AllFit(pkt.Length, ps)
      modifies pkt
      ensures pkt[..] == ExchangeAll(old(pkt[..]), ps)
    {
      AllWordsExchange(pkt[..], ps);
      WorkWords(pkt, AllWords(ps));
    }
  }

  lemma RunLast<T>(m: seq<T>, ws: seq<Word>)
    requires ws != [] && AllInMemory(|m|, ws)
    ensures Run(m, ws) == SwapWord(Run(m, ws[..|ws| - 1]), ws[|ws| - 1])
  {
  }

  lemma RunNext<T>(m: seq<T>, ws: seq<Word>, i: nat)
    requires AllInMemory(|m|, ws) && i < |ws|
    ensures Run(m, ws[..i + 1]) == SwapWord(Run(m, ws[..i]), ws[i])
  {
    var xs := ws[..i + 1];
    assert xs[..|xs| - 1] == ws[..i] && xs[|xs| - 1] == ws[i];
    RunLast(m, xs);
  }

  lemma MixIsSplice<T>(n: nat, b: Eight<T>, c: Eight<T>)
    requires 1 <= n <= 8
    ensures Mix(n, b, c).ToSeq() == Splice(n, b.ToSeq(), c.ToSeq())
  {
  }
}
