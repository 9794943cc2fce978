/** The 64-bit arithmetic behind an Ethernet and MPLS header. */
module MplsBits {
  import opened SwapWords

  // ----- byte order

  function Reverse<T>(e: Eight<T>): Eight<T> { Eight(e.b7, e.b6, e.b5, e.b4, e.b3, e.b2, e.b1, e.b0) }

  /** `rte_bswap64`. */
  function Bswap(w: bv64): bv64 { Pack(Reverse(Unpack(w))) }

  lemma UnpackBswap(w: bv64)
    ensures Unpack(Bswap(w)) == Reverse(Unpack(w))
  {
    UnpackPack(Reverse(Unpack(w)));
  }

  lemma PackOr(b: Eight<bv8>, c: Eight<bv8>)
    ensures Pack(b) | Pack(c) == Pack(Eight(b.b0 | c.b0, b.b1 | c.b1, b.b2 | c.b2, b.b3 | c.b3,
                                            b.b4 | c.b4, b.b5 | c.b5, b.b6 | c.b6, b.b7 | c.b7))
  {
  }

  lemma LowOr(v: bv64, w: bv64)
    ensures Low(v | w) == Low(v) | Low(w)
  {
  }

  lemma ShiftOr(v: bv64, w: bv64)
    ensures (v | w) >> 8 == (v >> 8) | (w >> 8) && (v | w) >> 16 == (v >> 16) | (w >> 16)
    ensures (v | w) >> 24 == (v >> 24) | (w >> 24) && (v | w) >> 32 == (v >> 32) | (w >> 32)
    ensures (v | w) >> 40 == (v >> 40) | (w >> 40) && (v | w) >> 48 == (v >> 48) | (w >> 48)
    ensures (v | w) >> 56 == (v >> 56) | (w >> 56)
  {
  }

  lemma UnpackOr(v: bv64, w: bv64)
    ensures var b, c := Unpack(v), Unpack(w);
      Unpack(v | w) == Eight(b.b0 | c.b0, b.b1 | c.b1, b.b2 | c.b2, b.b3 | c.b3,
                             b.b4 | c.b4, b.b5 | c.b5, b.b6 | c.b6, b.b7 | c.b7)
  {
    ShiftOr(v, w);
    LowOr(v, w);
    LowOr(v >> 8, w >> 8);
    LowOr(v >> 16, w >> 16);
    LowOr(v >> 24, w >> 24);
    LowOr(v >> 32, w >> 32);
    LowOr(v >> 40, w >> 40);
    LowOr(v >> 48, w >> 48);
    LowOr(v >> 56, w >> 56);
  }

  lemma BswapOr(v: bv64, w: bv64)
    ensures Bswap(v) | Bswap(w) == Bswap(v | w)
  {
    UnpackOr(v, w);
    PackOr(Reverse(Unpack(v)), Reverse(Unpack(w)));
  }

  // ----- labels

  function MplsLabel(tag: bv64, exp: bv64, s: bv64, ttl: bv64): bv64 {
    ((tag & 0xfffff) << 12) | ((exp & 7) << 9) | ((s & 1) << 8) | (ttl & 0xff)
  }

  function TwoLabels(first: bv64, second: bv64): bv64 { (first << 32) | second }

  /** A label stack entry on the wire: twenty bits of label, three of EXP, bottom of stack, TTL. */
  function Byte0(tag: bv64): bv8 { Low(tag >> 12) }
  function Byte1(tag: bv64): bv8 { Low(tag >> 4) }
  function Byte2(tag: bv64, exp: bv64, s: bv64): bv8 { Low(((tag & 0xf) << 4) | ((exp & 7) << 1) | (s & 1)) }

  function Entry(tag: bv64, exp: bv64, s: bv64): (b: seq<bv8>)
    ensures |b| == 4
  {
    [Byte0(tag), Byte1(tag), Byte2(tag, exp, s), 0]
  }

  /** The four bytes read back: label in the upper twenty bits, then three bits of EXP, bottom of stack, TTL 0. */
  ghost predicate Carries(b: seq<bv8>, tag: bv64, exp: bv64, bottom: bool) {
    && |b| == 4
    && ((b[0] as bv64) << 12) | ((b[1] as bv64) << 4) | ((b[2] as bv64) >> 4) == tag & 0xf_ffff
    && ((b[2] as bv64) >> 1) & 7 == exp & 7
    && (b[2] & 1 == 1 <==> bottom) && b[3] == 0
  }

  lemma EntryCarries(tag: bv64, exp: bv64, bottom: bool)
    ensures Carries(Entry(tag, exp, if bottom then 1 else 0), tag, exp, bottom)
  {
    EntryReads(tag, exp, if bottom then 1 else 0);
  }

  lemma EntryReads(tag: bv64, exp: bv64, s: bv64)
    ensures ((Byte0(tag) as bv64) << 12) | ((Byte1(tag) as bv64) << 4) | ((Byte2(tag, exp, s) as bv64) >> 4)
         == tag & 0xf_ffff
    ensures ((Byte2(tag, exp, s) as bv64) >> 1) & 7 == exp & 7
    ensures Byte2(tag, exp, s) & 1 == 1 <==> s & 1 == 1
  {
  }

  lemma LabelBytes(a: bv64, sa: bv64, b: bv64, sb: bv64, c: bv64)
    ensures Unpack(TwoLabels(MplsLabel(a, c, sa, 0), MplsLabel(b, c, sb, 0)))
         == Eight(0, Byte2(b, c, sb), Byte1(b), Byte0(b), 0, Byte2(a, c, sa), Byte1(a), Byte0(a))
  {
  }

  lemma Marked(l: bv64, s: bv64, c: bv64)
    ensures MplsLabel(l, 0, s, 0) | MplsLabel(0, c, 0, 0) == MplsLabel(l, c, s, 0)
  {
  }

  /** Two label stack entries as one slab, and the colour mark for two. */
  function Slab(a: bv64, sa: bv64, b: bv64, sb: bv64): bv64 {
    Bswap(TwoLabels(MplsLabel(a, 0, sa, 0), MplsLabel(b, 0, sb, 0)))
  }

  function Mark(c: bv64): bv64 { Bswap(TwoLabels(MplsLabel(0, c, 0, 0), MplsLabel(0, c, 0, 0))) }

  lemma TwoOr(a: bv64, b: bv64, c: bv64, d: bv64)
    ensures TwoLabels(a, b) | TwoLabels(c, d) == TwoLabels(a | c, b | d)
  {
  }

  lemma MarkedTwo(a: bv64, sa: bv64, b: bv64, sb: bv64, c: bv64)
    ensures TwoLabels(MplsLabel(a, 0, sa, 0), MplsLabel(b, 0, sb, 0)) |
      TwoLabels(MplsLabel(0, c, 0, 0), MplsLabel(0, c, 0, 0))
         == TwoLabels(MplsLabel(a, c, sa, 0), MplsLabel(b, c, sb, 0))
  {
    TwoOr(MplsLabel(a, 0, sa, 0), MplsLabel(b, 0, sb, 0), MplsLabel(0, c, 0, 0), MplsLabel(0, c, 0, 0));
    Marked(a, sa, c);
    Marked(b, sb, c);
  }

  lemma BswapSum(u: bv64, v: bv64, w: bv64)
    requires u | v == w
    ensures Bswap(u) | Bswap(v) == Bswap(w)
  {
    BswapOr(u, v);
  }

  lemma MarkedSlab(a: bv64, sa: bv64, b: bv64, sb: bv64, c: bv64)
    ensures Slab(a, sa, b, sb) | Mark(c) == Bswap(TwoLabels(MplsLabel(a, c, sa, 0), MplsLabel(b, c, sb, 0)))
  {
    MarkedTwo(a, sa, b, sb, c);
    BswapSum(TwoLabels(MplsLabel(a, 0, sa, 0), MplsLabel(b, 0, sb, 0)),
      TwoLabels(MplsLabel(0, c, 0, 0), MplsLabel(0, c, 0, 0)),
      TwoLabels(MplsLabel(a, c, sa, 0), MplsLabel(b, c, sb, 0)));
  }

  /** A marked slab, as stored, is its two entries with the colour in EXP. */
  lemma MarkedBytes(a: bv64, sa: bv64, b: bv64, sb: bv64, c: bv64)
    ensures Unpack(Slab(a, sa, b, sb) | Mark(c)).ToSeq() == Entry(a, c, sa) + Entry(b, c, sb)
  {
    MarkedSlab(a, sa, b, sb, c);
    UnpackBswap(TwoLabels(MplsLabel(a, c, sa, 0), MplsLabel(b, c, sb, 0)));
    LabelBytes(a, sa, b, sb, c);
  }

  lemma PlainBytes(a: bv64, sa: bv64, b: bv64, sb: bv64)
    ensures Unpack(Slab(a, sa, b, sb)).ToSeq() == Entry(a, 0, sa) + Entry(b, 0, sb)
  {
    UnpackBswap(TwoLabels(MplsLabel(a, 0, sa, 0), MplsLabel(b, 0, sb, 0)));
    LabelBytes(a, sa, b, sb, 0);
  }

  lemma OneLabel(b: bv64, sb: bv64)
    ensures Bswap(MplsLabel(b, 0, sb, 0)) == Slab(0, 0, b, sb)
  {
    assert TwoLabels(MplsLabel(0, 0, 0, 0), MplsLabel(b, 0, sb, 0)) == MplsLabel(b, 0, sb, 0);
  }

  // ----- MAC addresses

  const ETHERTYPE_MPLS: bv64 := 0x8847

  function Bswap16(w: bv64): bv64 { ((w & 0xff) << 8) | ((w >> 8) & 0xff) }

  /** `SLAB_NBO_MACADDRSRC_ETHERTYPE`. */
  function SourceSlab(mac: bv64): bv64 { mac | (Bswap16(ETHERTYPE_MPLS) << 48) }

  /** The ethertype is or-ed into whatever the stored address has above its 48 bits. */
  lemma SourceBytes(s: Eight<bv8>)
    ensures Unpack(SourceSlab(Pack(s))) == s.(b6 := s.b6 | 0x88, b7 := s.b7 | 0x47)
  {
    UnpackPack(s);
    EthertypeBytes();
    UnpackOr(Pack(s), Bswap16(ETHERTYPE_MPLS) << 48);
  }

  lemma EthertypeBytes()
    ensures Unpack(Bswap16(ETHERTYPE_MPLS) << 48) == Eight(0, 0, 0, 0, 0, 0, 0x88, 0x47)
  {
  }

  /** The address moved up by two bytes; what followed it falls off. */
  lemma DestinationBytes(d: Eight<bv8>)
    ensures Unpack(Pack(d) << 16) == Eight(0, 0, d.b0, d.b1, d.b2, d.b3, d.b4, d.b5)
  {
    assert Pack(d) << 16 == Pack(Eight(0, 0, d.b0, d.b1, d.b2, d.b3, d.b4, d.b5));
    UnpackPack(Eight(0, 0, d.b0, d.b1, d.b2, d.b3, d.b4, d.b5));
  }

  lemma SwappedTwice(w: bv64)
    ensures Unpack(Bswap(Bswap(w))) == Unpack(w)
  {
    UnpackBswap(Bswap(w));
    UnpackBswap(w);
  }

  // ----- 32-bit words

  /** The four bytes that storing a 32-bit word writes. */
  function Word32(w: bv32): (b: seq<bv8>)
    ensures |b| == 4
  {
    [(w & 0xff) as bv8, ((w >> 8) & 0xff) as bv8, ((w >> 16) & 0xff) as bv8, ((w >> 24) & 0xff) as bv8]
  }

  /** `rte_bswap32`. */
  function Bswap32(w: bv32): bv32 {
    ((w & 0xff) << 24) | ((w & 0xff00) << 8) | ((w >> 8) & 0xff00) | (w >> 24)
  }

  /** Swapped and then stored, a word is in network order. */
  lemma NetworkOrder(w: bv32)
    ensures Word32(Bswap32(w)) == [Word32(w)[3], Word32(w)[2], Word32(w)[1], Word32(w)[0]]
  {
  }
}
