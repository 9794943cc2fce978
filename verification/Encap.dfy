/** The routing pipeline's handlers for MPLS encapsulation. */
module Encap {
  import opened Basics
  import opened SwapWords
  import opened PacketMemory
  import opened MplsBits
  import opened MplsLayout
  import opened Routing

  type uint16 = x: int | 0 <= x < 0x1_0000

  function U16(x: int): uint16 { x % 0x1_0000 }

  datatype Config = Config(arp: bool, ipHdrOffset: nat, arpKeyOffset: nat)

  /** What a route-add message carries; `dst` is the address field with the two bytes behind it. */
  datatype Request = Request(
    localFlag: bool, arpFlag: bool, qinqFlag: bool, mplsFlag: bool,
    portId: bv32, nextHop: bv32, dst: Eight<bv8>, labels: seq<bv64>, nLabels: nat)

  datatype RouteEntry = RouteEntry(
    isLocal: bool, portId: bv32, ip: bv32,
    dataOffset: uint16, l2Length: uint16,
    slab0: bv64, slab1: bv64, slab2: bv64, slab3: bv64,
    offset0: uint16, offset1: uint16, offset2: uint16, offset3: uint16)

  predicate Refused(config: Config, req: Request) {
    req.arpFlag != config.arp || req.qinqFlag || !req.mplsFlag || req.nLabels < 1 || req.nLabels > 4
  }

  // ----- what a good entry is

  /** There is room for the header between the mbuf and the IP header. */
  predicate Placeable(ip: nat, n: nat, length: nat) {
    1 <= n <= 4 && MBUF + 4 * n + 14 <= ip < 0x1_0000 && ip + 20 <= length
  }

  /** The slabs go where `n` labels need them, and the packet starts with the header. */
  predicate OffsetsFor(e: RouteEntry, config: Config, n: nat) {
    var ip := config.ipHdrOffset;
    && e.offset0 == ip - 8 && e.offset1 == Offset1(ip, n) && e.offset2 == ip - (4 * n + 8)
    && (!config.arp ==> e.offset3 == ip - (4 * n + 16))
    && MBUF + e.dataOffset == ip - (4 * n + 14) && e.l2Length == 4 * n + 14
  }

  /** The bytes a word is stored as, with or without a colour mark. */
  function Shown(w: bv64, color: Option<bv64>): (b: seq<bv8>)
    ensures |b| == 8
  {
    Unpack(Shade(w, color)).ToSeq()
  }

  function Wire(w: bv64): (b: seq<bv8>)
    ensures |b| == 8
  {
    Unpack(w).ToSeq()
  }

  /** Whatever the colour, what stays visible of slabs 0 and 1 is the label stack. */
  ghost predicate LabelsFor(slab0: bv64, slab1: bv64, labels: seq<bv64>)
    requires 1 <= |labels| <= 4
  {
    forall color: Option<bv64> :: Visible(|labels|, Shown(slab0, color), Shown(slab1, color)) ==
      Stack(labels, Exp(color))
  }

  // ----- building an entry

  lemma SlabsAreStack(labels: seq<bv64>)
    requires 1 <= |labels| <= 4
    ensures LabelsFor(Slab0(labels), Slab1(labels), labels)
  {
    forall color: Option<bv64>
      ensures Visible(|labels|, Shown(Slab0(labels), color), Shown(Slab1(labels), color)) == Stack(labels, Exp(color))
    {
      ShowsStack(labels, color);
    }
  }

  /** The switch over the number of labels. */
  method LabelSlabs(ip: nat, l: seq<bv64>, n: nat) returns (slab0: bv64, slab1: bv64, offset1: uint16)
    requires |l| == 4 && 1 <= n <= 4
    ensures slab0 == Slab0(l[..n]) && slab1 == Slab1(l[..n]) && offset1 == U16(Offset1(ip, n))
  {
    if n == 1 {
      OneLabel(l[0], 1);
      slab0, slab1, offset1 := 0, Bswap(MplsLabel(l[0], 0, 1, 0)), U16(ip - 8);
    } else if n == 2 {
      slab0, offset1 := 0, U16(ip - 8);
      slab1 := Bswap(TwoLabels(MplsLabel(l[0], 0, 0, 0), MplsLabel(l[1], 0, 1, 0)));
    } else if n == 3 {
      OneLabel(l[0], 0);
      slab0 := Bswap(TwoLabels(MplsLabel(l[1], 0, 0, 0), MplsLabel(l[2], 0, 1, 0)));
      slab1, offset1 := Bswap(MplsLabel(l[0], 0, 0, 0)), U16(ip - 2 * 8);
    } else {
      slab0 := Bswap(TwoLabels(MplsLabel(l[2], 0, 0, 0), MplsLabel(l[3], 0, 1, 0)));
      slab1 := Bswap(TwoLabels(MplsLabel(l[0], 0, 0, 0), MplsLabel(l[1], 0, 0, 0)));
      offset1 := U16(ip - 2 * 8);
    }
  }

  lemma Fits16(x: int)
    requires 0 <= x < 0x1_0000
    ensures U16(x) == x
  {
  }

  method FillEntry(config: Config, req: Request, slab0: bv64, slab1: bv64, offset1: uint16, slab2: bv64, slab3: bv64)
    returns (e: RouteEntry)
    requires 1 <= req.nLabels <= 4 && offset1 == U16(Offset1(config.ipHdrOffset, req.nLabels))
    ensures e.slab0 == slab0 && e.slab1 == slab1 && e.slab2 == slab2 && (!config.arp ==> e.slab3 == slab3)
    ensures e.isLocal == req.localFlag && e.portId == req.portId && (config.arp ==> e.ip == Bswap32(req.nextHop))
    ensures Placeable(config.ipHdrOffset, req.nLabels, config.ipHdrOffset + 20) ==> OffsetsFor(e, config, req.nLabels)
  {
    var ip, n := config.ipHdrOffset as int, req.nLabels as int;
    var offset2 := U16(ip - (n * 4 + 8));
    if config.arp {
      e := RouteEntry(req.localFlag, req.portId, Bswap32(req.nextHop), U16(offset2 - 6 - MBUF), n * 4 + 14,
        slab0, slab1, slab2, 0, U16(ip - 8), offset1, offset2, 0);
    } else {
      var offset3 := U16(ip - (n * 4 + 2 * 8));
      e := RouteEntry(req.localFlag, req.portId, 0, U16(offset3 + 2 - MBUF), n * 4 + 14,
        slab0, slab1, slab2, slab3, U16(ip - 8), offset1, offset2, offset3);
    }
    if Placeable(config.ipHdrOffset, req.nLabels, config.ipHdrOffset + 20) {
      Fits16(ip - 8);
      Fits16(Offset1(ip, n));
      Fits16(ip - (4 * n + 8));
      Fits16(ip - (4 * n + 16));
      Fits16(ip - (4 * n + 14) - MBUF);
    }
  }

  /** The six bytes of an address. */
  function Six(e: Eight<bv8>): (s: seq<bv8>)
    ensures |s| == 6
  {
    [e.b0, e.b1, e.b2, e.b3, e.b4, e.b5]
  }

  lemma DestinationWire(d: Eight<bv8>)
    ensures Wire(Pack(d) << 16)[2..] == Six(d) && Wire(Bswap(Bswap(Pack(d) << 16)))[2..] == Six(d)
  {
    DestinationBytes(d);
    SwappedTwice(Pack(d) << 16);
    assert Eight(0, 0, d.b0, d.b1, d.b2, d.b3, d.b4, d.b5).ToSeq()[2..] == Six(d);
  }

  /** What the source slab stores: the address, and the ethertype or-ed over the two bytes behind it. */
  function SourceField(s: Eight<bv8>): (f: seq<bv8>)
    ensures |f| == 8
  {
    Six(s) + [s.b6 | 0x88, s.b7 | 0x47]
  }

  lemma SourceWire(s: Eight<bv8>)
    ensures Wire(SourceSlab(Pack(s))) == SourceField(s)
  {
    SourceBytes(s);
  }

  /** The two address slabs. */
  method AddressSlabs(src: Eight<bv8>, dst: Eight<bv8>) returns (slab2: bv64, slab3: bv64)
    ensures Wire(slab2) == SourceField(src) && Wire(slab3)[2..] == Six(dst)
  {
    slab2 := SourceSlab(Pack(src));
    var macDst := Bswap(Pack(dst) << 16);
    slab3 := Bswap(macDst);
    SourceWire(src);
    DestinationWire(dst);
  }

  /** The entry encodes this route. */
  ghost predicate Encodes(e: RouteEntry, config: Config, source: seq<bv8>, dst: seq<bv8>, labels: seq<bv64>) {
    && 1 <= |labels| <= 4 && LabelsFor(e.slab0, e.slab1, labels)
    && Wire(e.slab2) == source
    && (!config.arp ==> Wire(e.slab3)[2..] == dst)
  }

  /** The entry has what the key of this route is made from. */
  predicate KeyFor(e: RouteEntry, req: Request) {
    e.isLocal == req.localFlag && e.portId == req.portId && e.ip == Bswap32(req.nextHop)
  }

  /** The entry that an accepted request turned into. */
  ghost predicate EntryOf(e: RouteEntry, config: Config, req: Request, source: seq<bv8>) {
    && |req.labels| == 4 && 1 <= req.nLabels <= 4 && |source| == 8
    && Encodes(e, config, source, Six(req.dst), req.labels[..req.nLabels])
    && (config.arp ==> KeyFor(e, req))
    && (Placeable(config.ipHdrOffset, req.nLabels, config.ipHdrOffset + 20) ==> OffsetsFor(e, config, req.nLabels))
  }

  /** pipeline_routing_msg_req_route_add_handler for an MPLS pipeline. */
  method RouteAdd(config: Config, src: Eight<bv8>, req: Request) returns (status: int, e: RouteEntry)
    requires |req.labels| == 4
    ensures status ==
      if req.arpFlag == config.arp && !req.qinqFlag && req.mplsFlag && 1 <= req.nLabels <= 4 then 0 else -1
    ensures status == 0 ==> EntryOf(e, config, req, SourceField(src))
  {
    e := RouteEntry(false, 0, 0, 0, 0, 0, 0, 0, 0, 0, 0, 0, 0);
    if (!config.arp && req.arpFlag) || (config.arp && !req.arpFlag) || req.qinqFlag || !req.mplsFlag {
      return -1, e;
    }
    var n := req.nLabels;
    if n < 1 || n > 4 {
      return -1, e;
    }
    var slab0, slab1, offset1 := LabelSlabs(config.ipHdrOffset, req.labels, n);
    SlabsAreStack(req.labels[..n]);
    var slab2, slab3 := AddressSlabs(src, req.dst);
    e := FillEntry(config, req, slab0, slab1, offset1, slab2, slab3);
    return 0, e;
  }

  // ----- the ARP key

  /** The eight bytes of the ARP key: output port, and the packet's own destination or the next hop. */
  function KeyBytes(m: seq<bv8>, ip: nat, req: Request): (k: seq<bv8>)
    requires ip + 20 <= |m|
    ensures |k| == 8
  {
    Word32(req.portId) + (if req.localFlag then m[ip + 16..ip + 20] else Word32(Bswap32(req.nextHop)))
  }

  /** The key's bytes lie outside the part of the header that routing writes. */
  predicate KeyMisses(config: Config, n: nat) {
    config.arpKeyOffset + 8 <= config.ipHdrOffset - (4 * n + 8) || config.ipHdrOffset <= config.arpKeyOffset
  }

  /** The key is the output port as a stored word and then, in network order, the next hop or the packet's
      own destination. */
  lemma KeyInNetworkOrder(m: seq<bv8>, ip: nat, req: Request)
    requires ip + 20 <= |m|
    ensures var k, h := KeyBytes(m, ip, req), Word32(req.nextHop);
      && k[..4] == Word32(req.portId)
      && k[4..] == if req.localFlag then m[ip + 16..ip + 20] else [h[3], h[2], h[1], h[0]]
  {
    NetworkOrder(req.nextHop);
  }

  lemma ConstantWords()
    ensures Word32(0) == [0, 0, 0, 0] && Word32(1) == [1, 0, 0, 0]
    ensures Word32(0xffff_ffff) == [0xff, 0xff, 0xff, 0xff]
  {
  }

  // ----- writing a packet

  /** An mbuf: its memory from the mbuf structure on, and the packet's place in it. */
  class Mbuf {
    const mem: array<bv8>
    var dataOff: uint16
    var dataLen: uint16
    var pktLen: uint16

    /** The packet starts `4 * n + 14` bytes before the IP header. */
    ghost predicate Starts(ip: nat, n: nat)
      reads this
    {
      MBUF + dataOff == ip - (4 * n + 14)
    }

    constructor (n: nat)
      ensures fresh(mem) && mem.Length == n
    {
      mem := new bv8[n](_ => 0);
      dataOff, dataLen, pktLen := 0, 0, 0;
    }
  }

  /** The IP header says that the packet is `v` bytes long: in network order, high byte first. */
  predicate SaysLength(m: seq<bv8>, ip: nat, v: uint16) {
    ip + 4 <= |m| && m[ip + 2] as int == v / 256 && m[ip + 3] as int == v % 256
  }

  /** Every header says some length. */
  lemma SomeLength(m: seq<bv8>, ip: nat) returns (v: uint16)
    requires ip + 4 <= |m|
    ensures SaysLength(m, ip, v)
  {
    v := 256 * (m[ip + 2] as int) + (m[ip + 3] as int);
  }

  lemma LengthIsRead(m: seq<bv8>, ip: nat, v: uint16)
    requires SaysLength(m, ip, v)
    ensures TotalLength(m, ip) == v
  {
  }

  /** Whatever length the IP header said, the packet is now that long plus the `4 * n + 14` bytes of the header. */
  ghost predicate LengthAfter(pkt: Mbuf, m: seq<bv8>, ip: nat, n: nat)
    reads pkt
  {
    forall v: uint16 :: SaysLength(m, ip, v) ==> pkt.dataLen == pkt.pktLen == (v + 4 * n + 14) % 0x1_0000
  }

  function TotalLength(m: seq<bv8>, ip: nat): uint16
    requires ip + 4 <= |m|
  {
    (m[ip + 2] as int) * 256 + (m[ip + 3] as int)
  }

  /** The slabs written for every packet of the route. */
  method WriteSlabs(mem: array<bv8>, e: RouteEntry, ghost config: Config, color: Option<bv64>,
                    ghost source: seq<bv8>, ghost dst: seq<bv8>, ghost labels: seq<bv64>)
    requires Encodes(e, config, source, dst, labels) && OffsetsFor(e, config, |labels|)
    requires Placeable(config.ipHdrOffset, |labels|, mem.Length)
    modifies mem
    ensures mem[..] == WithHeader(old(mem[..]), config.ipHdrOffset, Upper(source, labels, Exp(color)))
  {
    ghost var upper := Upper(source, labels, Exp(color));
    var w0, w1, w2 := Unpack(Shade(e.slab0, color)), Unpack(Shade(e.slab1, color)), Unpack(e.slab2);
    assert Visible(|labels|, Shown(e.slab0, color), Shown(e.slab1, color)) == Stack(labels, Exp(color));
    StoreSlabs(mem, e.offset0, w0, e.offset1, w1, e.offset2, w2, config.ipHdrOffset, |labels|, upper);
  }

  /** The destination address below them, when the route carries it. */
  method WriteAddress(mem: array<bv8>, e: RouteEntry, ghost config: Config, ghost m: seq<bv8>, ghost header: seq<bv8>,
                      ghost source: seq<bv8>, ghost dst: seq<bv8>, ghost labels: seq<bv64>)
    requires |dst| == 6 && !config.arp && Encodes(e, config, source, dst, labels) && OffsetsFor(e, config, |labels|)
    requires Placeable(config.ipHdrOffset, |labels|, mem.Length) && |m| == mem.Length
    requires |header| == 4 * |labels| + 8 && mem[..] == WithHeader(m, config.ipHdrOffset, header)
    modifies mem
    ensures mem[..] == WithHeader(m, config.ipHdrOffset, dst + header)
  {
    ExtendHeader(mem, e.offset3, Unpack(e.slab3), config.ipHdrOffset, m, header, dst);
  }

  /** The ARP key: output port, then next hop. */
  method WriteKey(mem: array<bv8>, o: nat, port: bv32, hop: seq<bv8>)
    requires o + 8 <= mem.Length && |hop| == 4
    modifies mem
    ensures mem[..] == Overwrite(old(mem[..]), o, Word32(port) + hop)
  {
    StoreBytes(mem, o, Word32(port) + hop);
  }

  method StoreBytes<T>(mem: array<T>, o: nat, b: seq<T>)
    requires o + |b| <= mem.Length
    modifies mem
    ensures mem[..] == Overwrite(old(mem[..]), o, b)
  {
    forall k | 0 <= k < |b| {
      mem[o + k] := b[k];
    }
  }

  method SetLengths(pkt: Mbuf, e: RouteEntry, ip: nat, ghost n: nat)
    requires ip + 4 <= pkt.mem.Length && e.l2Length == 4 * n + 14
    modifies pkt
    ensures pkt.dataOff == e.dataOffset && LengthAfter(pkt, pkt.mem[..], ip, n)
  {
    var total := TotalLength(pkt.mem[..], ip);
    forall v: uint16 | SaysLength(pkt.mem[..], ip, v) ensures total == v {
      LengthIsRead(pkt.mem[..], ip, v);
    }
    pkt.dataOff := e.dataOffset;
    pkt.dataLen := U16(total + e.l2Length);
    pkt.pktLen := U16(total + e.l2Length);
  }

  /** The memory has room for header and key, and the key lies behind the mbuf structure. */
  predicate Roomy(config: Config, n: nat, length: nat) {
    && Placeable(config.ipHdrOffset, n, length)
    && (config.arp ==> MBUF <= config.arpKeyOffset && config.arpKeyOffset + 8 <= length)
  }

  /** Packet memory after pkt_work_routing: with ARP off the whole header; with ARP on the header
      without its destination, and after it the ARP key, wherever that is configured to be. */
  ghost function Routed(m: seq<bv8>, config: Config, req: Request, source: seq<bv8>, color: Option<bv64>): (r: seq<bv8>)
    requires 1 <= req.nLabels <= |req.labels| && |source| == 8
    requires Roomy(config, req.nLabels, |m|)
    ensures |r| == |m|
  {
    var ip, upper := config.ipHdrOffset, Upper(source, req.labels[..req.nLabels], Exp(color));
    if config.arp then Overwrite(WithHeader(m, ip, upper), config.arpKeyOffset, KeyBytes(m, ip, req))
    else WithHeader(m, ip, Six(req.dst) + upper)
  }

  /** pkt_work_routing for an MPLS pipeline; `color` is present when colours are marked. */
  method WorkRouting(pkt: Mbuf, e: RouteEntry, config: Config, color: Option<bv64>,
                     ghost req: Request, ghost source: seq<bv8>)
    requires EntryOf(e, config, req, source) && Roomy(config, req.nLabels, pkt.mem.Length)
    modifies pkt, pkt.mem
    ensures pkt.mem[..] == Routed(old(pkt.mem[..]), config, req, source, color)
    ensures pkt.Starts(config.ipHdrOffset, req.nLabels)
    ensures LengthAfter(pkt, old(pkt.mem[..]), config.ipHdrOffset, req.nLabels)
  {
    SetLengths(pkt, e, config.ipHdrOffset, req.nLabels);
    WriteEntry(pkt.mem, e, config, color, req, source);
  }

  method WriteEntry(mem: array<bv8>, e: RouteEntry, config: Config, color: Option<bv64>,
                    ghost req: Request, ghost source: seq<bv8>)
    requires EntryOf(e, config, req, source) && Roomy(config, req.nLabels, mem.Length)
    modifies mem
    ensures mem[..] == Routed(old(mem[..]), config, req, source, color)
  {
    if config.arp {
      WriteWithKey(mem, e, config, color, req, source);
    } else {
      WriteWithAddress(mem, e, config, color, req, source);
    }
  }

  /** With ARP off: the slabs, then the destination address. */
  method WriteWithAddress(mem: array<bv8>, e: RouteEntry, config: Config, color: Option<bv64>,
                          ghost req: Request, ghost source: seq<bv8>)
    requires EntryOf(e, config, req, source) && Roomy(config, req.nLabels, mem.Length) && !config.arp
    modifies mem
    ensures mem[..] == Routed(old(mem[..]), config, req, source, color)
  {
    ghost var m, labels := mem[..], req.labels[..req.nLabels];
    WriteSlabs(mem, e, config, color, source, Six(req.dst), labels);
    WriteAddress(mem, e, config, m, Upper(source, labels, Exp(color)), source, Six(req.dst), labels);
  }

  /** With ARP on: the slabs, then the key. */
  method WriteWithKey(mem: array<bv8>, e: RouteEntry, config: Config, color: Option<bv64>,
                      ghost req: Request, ghost source: seq<bv8>)
    requires EntryOf(e, config, req, source) && Roomy(config, req.nLabels, mem.Length) && config.arp
    modifies mem
    ensures mem[..] == Routed(old(mem[..]), config, req, source, color)
  {
    ghost var key := KeyBytes(mem[..], config.ipHdrOffset, req);
    var hop := NextHop(mem, e, config.ipHdrOffset);
    assert Word32(e.portId) + hop == key;
    WriteSlabs(mem, e, config, color, source, Six(req.dst), req.labels[..req.nLabels]);
    WriteKey(mem, config.arpKeyOffset, e.portId, hop);
  }

  /** The next hop as it goes into the key, read before anything is written. */
  method NextHop(mem: array<bv8>, e: RouteEntry, ip: nat) returns (hop: seq<bv8>)
    requires ip + 20 <= mem.Length
    ensures hop == if e.isLocal then mem[..][ip + 16..ip + 20] else Word32(e.ip)
    ensures |hop| == 4
  {
    hop := if e.isLocal then mem[ip + 16..ip + 20] else Word32(e.ip);
  }

  method StoreThree<T>(mem: array<T>, o0: nat, e0: Eight<T>, o1: nat, e1: Eight<T>, o2: nat, e2: Eight<T>)
    requires o0 + 8 <= mem.Length && o1 + 8 <= mem.Length && o2 + 8 <= mem.Length
    modifies mem
    ensures mem[..] == Slabs(old(mem[..]), o0, e0.ToSeq(), o1, e1.ToSeq(), o2, e2.ToSeq())
  {
    StoreEight(mem, o0, e0);
    StoreEight(mem, o1, e1);
    StoreEight(mem, o2, e2);
  }

  method StoreSlabs<T>(mem: array<T>, o0: nat, e0: Eight<T>, o1: nat, e1: Eight<T>, o2: nat, e2: Eight<T>,
                       ghost ip: nat, ghost n: nat, ghost shown: seq<T>)
    requires Placeable(ip, n, mem.Length) && o0 == ip - 8 && o1 == Offset1(ip, n) && o2 == ip - (4 * n + 8)
    requires shown == e2.ToSeq() + Visible(n, e0.ToSeq(), e1.ToSeq())
    modifies mem
    ensures mem[..] == WithHeader(old(mem[..]), ip, shown)
  {
    SlabsAreHeader(mem[..], ip, n, o0, e0.ToSeq(), o1, e1.ToSeq(), o2, e2.ToSeq(), shown);
    StoreThree(mem, o0, e0, o1, e1, o2, e2);
  }

  /** MACADDR_DST_WRITE: the last six of eight bytes. */
  method WriteDestination<T>(mem: array<T>, o: nat, e: Eight<T>, ghost address: seq<T>)
    requires o + 8 <= mem.Length && e.ToSeq()[2..] == address
    modifies mem
    ensures mem[..] == Overwrite(old(mem[..]), o + 2, address)
  {
    var s := e.ToSeq();
    forall k | 2 <= k < 8 {
      mem[o + k] := s[k];
    }
  }

  method ExtendHeader<T>(mem: array<T>, o: nat, e: Eight<T>, ghost ip: nat, ghost m: seq<T>, ghost header: seq<T>,
                         ghost address: seq<T>)
    requires e.ToSeq()[2..] == address && |header| + 8 <= ip <= |m| == mem.Length && o == ip - |header| - 8
    requires mem[..] == WithHeader(m, ip, header)
    modifies mem
    ensures mem[..] == WithHeader(m, ip, address + header)
  {
    HeaderExtends(m, ip, header, address, o + 2);
    WriteDestination(mem, o, e, address);
  }

  /** The address as pipeline_routing_msg_req_arp_add_handler stores it. */
  method ArpEntry(address: Eight<bv8>) returns (macaddr: bv64)
    ensures Wire(macaddr)[2..] == Six(address)
  {
    DestinationWire(address);
    macaddr := Pack(address) << 16;
  }

  /** pkt_work_arp: writes the destination where the packet starts. */
  method WorkArp(pkt: Mbuf, macaddr: bv64, ghost address: seq<bv8>)
    requires Wire(macaddr)[2..] == address && MBUF + pkt.dataOff + 6 <= pkt.mem.Length
    modifies pkt.mem
    ensures pkt.mem[..] == Overwrite(old(pkt.mem[..]), MBUF + pkt.dataOff, address)
  {
    WriteDestination(pkt.mem, MBUF + pkt.dataOff - 2, Unpack(macaddr), address);
  }

  // ----- a route added and then used

  /** Packet memory after both handlers. */
  ghost function Encapsulated(m: seq<bv8>, config: Config, req: Request, source: seq<bv8>, color: Option<bv64>,
                              arpDst: seq<bv8>): seq<bv8>
    requires 1 <= req.nLabels <= |req.labels| && |source| == 8 && |arpDst| == 6
    requires Roomy(config, req.nLabels, |m|)
  {
    var routed := Routed(m, config, req, source, color);
    Resolved(routed, config.arp, config.ipHdrOffset - (4 * req.nLabels + 14), arpDst)
  }

  method Encapsulate(config: Config, src: Eight<bv8>, req: Request, pkt: Mbuf, color: Option<bv64>, arpDst: Eight<bv8>)
    returns (status: int)
    requires |req.labels| == 4
    requires Refused(config, req) || Roomy(config, req.nLabels, pkt.mem.Length)
    modifies pkt, pkt.mem
    ensures status ==
      if req.arpFlag == config.arp && !req.qinqFlag && req.mplsFlag && 1 <= req.nLabels <= 4 then 0 else -1
    ensures status == -1 ==> pkt.mem[..] == old(pkt.mem[..])
    ensures status == 0 ==>
      && pkt.Starts(config.ipHdrOffset, req.nLabels)
      && pkt.mem[..] == Encapsulated(old(pkt.mem[..]), config, req, SourceField(src), color, Six(arpDst))
      && LengthAfter(pkt, old(pkt.mem[..]), config.ipHdrOffset, req.nLabels)
  {
    var e;
    status, e := RouteAdd(config, src, req);
    if status == 0 {
      Forward(pkt, e, config, color, arpDst, req, SourceField(src));
    }
  }

  /** One packet through the routing table and, with ARP on, through the ARP table. */
  method Forward(pkt: Mbuf, e: RouteEntry, config: Config, color: Option<bv64>, arpDst: Eight<bv8>,
                 ghost req: Request, ghost source: seq<bv8>)
    requires EntryOf(e, config, req, source) && Roomy(config, req.nLabels, pkt.mem.Length)
    modifies pkt, pkt.mem
    ensures pkt.Starts(config.ipHdrOffset, req.nLabels)
    ensures LengthAfter(pkt, old(pkt.mem[..]), config.ipHdrOffset, req.nLabels)
    ensures pkt.mem[..] == Encapsulated(old(pkt.mem[..]), config, req, source, color, Six(arpDst))
  {
    WorkRouting(pkt, e, config, color, req, source);
    Resolve(pkt, config, arpDst, req.nLabels);
  }

  ghost function Resolved(m: seq<bv8>, arp: bool, start: nat, arpDst: seq<bv8>): seq<bv8>
    requires start + |arpDst| <= |m|
  {
    if arp then Overwrite(m, start, arpDst) else m
  }

  /** The ARP table's part, with the entry made from an address. */
  method Resolve(pkt: Mbuf, config: Config, arpDst: Eight<bv8>, ghost n: nat)
    requires pkt.Starts(config.ipHdrOffset, n) && Placeable(config.ipHdrOffset, n, pkt.mem.Length)
    modifies pkt.mem
    ensures pkt.mem[..] == Resolved(old(pkt.mem[..]), config.arp, config.ipHdrOffset - (4 * n + 14), Six(arpDst))
  {
    if config.arp {
      ghost var address := Six(arpDst);
      var macaddr := ArpEntry(arpDst);
      WorkArp(pkt, macaddr, address);
    }
  }

  // ----- when the header comes out right

  /** The bytes from data_off to the IP header are the intended ones. */
  ghost predicate HeaderExact(m: seq<bv8>, config: Config, req: Request, source: seq<bv8>, color: Option<bv64>,
      arpDst: seq<bv8>)
    requires 1 <= req.nLabels <= |req.labels| && |source| == 8 && |arpDst| == 6
    requires Roomy(config, req.nLabels, |m|)
  {
    var ip, labels := config.ipHdrOffset, req.labels[..req.nLabels];
    |Encapsulated(m, config, req, source, color, arpDst)| == |m| &&
    Encapsulated(m, config, req, source, color, arpDst)[ip - (4 * req.nLabels + 14)..ip]
    == Header(if config.arp then arpDst else Six(req.dst), source, labels, Exp(color))
  }

  /** With ARP off the header is always exact. */
  lemma ArpOffExact(m: seq<bv8>, config: Config, req: Request, source: seq<bv8>, color: Option<bv64>, arpDst: seq<bv8>)
    requires 1 <= req.nLabels <= |req.labels| && |source| == 8 && |arpDst| == 6
    requires Roomy(config, req.nLabels, |m|) && !config.arp
    ensures HeaderExact(m, config, req, source, color, arpDst)
  {
    var ip, h := config.ipHdrOffset, Six(req.dst) + Upper(source, req.labels[..req.nLabels], Exp(color));
    HeaderShows(m, ip, h);
  }

  /** Outside the header and, with ARP on, the key, no byte changes. */
  lemma OtherBytesKept(m: seq<bv8>, config: Config, req: Request, source: seq<bv8>, color: Option<bv64>,
      arpDst: seq<bv8>, j: nat)
    requires 1 <= req.nLabels <= |req.labels| && |source| == 8 && |arpDst| == 6
    requires Roomy(config, req.nLabels, |m|) && j < |m|
    requires j < config.ipHdrOffset - (4 * req.nLabels + 14) || config.ipHdrOffset <= j
    requires config.arp ==> j < config.arpKeyOffset || config.arpKeyOffset + 8 <= j
    ensures var after := Encapsulated(m, config, req, source, color, arpDst);
      |after| == |m| && after[j] == m[j]
  {
    var upper := Upper(source, req.labels[..req.nLabels], Exp(color));
    WithHeaderAt(m, config.ipHdrOffset, if config.arp then upper else Six(req.dst) + upper, j);
  }

  lemma HeaderShows<T>(m: seq<T>, ip: nat, h: seq<T>)
    requires |h| <= ip <= |m|
    ensures WithHeader(m, ip, h)[ip - |h|..ip] == h
  {
  }

  /** With ARP on it is exact exactly when the key writes nothing else over it. */
  lemma ArpOnExactIff(m: seq<bv8>, config: Config, req: Request, source: seq<bv8>, color: Option<bv64>,
      arpDst: seq<bv8>)
    requires 1 <= req.nLabels <= |req.labels| && |source| == 8 && |arpDst| == 6
    requires Roomy(config, req.nLabels, |m|) && config.arp
    ensures HeaderExact(m, config, req, source, color, arpDst)
       <==> Coincides(config.ipHdrOffset, Upper(source, req.labels[..req.nLabels], Exp(color)),
                      config.arpKeyOffset, KeyBytes(m, config.ipHdrOffset, req))
  {
    var ip, upper := config.ipHdrOffset, Upper(source, req.labels[..req.nLabels], Exp(color));
    HeaderExactIff(m, ip, upper, config.arpKeyOffset, KeyBytes(m, ip, req), arpDst);
  }

  /** In memory with an exact header the ethertype is 0x8847 exactly when the stored port address has no other
      bits above its 48. */
  lemma EthertypeIff(after: seq<bv8>, ip: nat, dst: seq<bv8>, src: Eight<bv8>, labels: seq<bv64>, exp: bv64)
    requires |dst| == 6 && 4 * |labels| + 14 <= ip <= |after|
    requires after[ip - (4 * |labels| + 14)..ip] == Header(dst, SourceField(src), labels, exp)
    ensures var o := ip - 4 * |labels|;
      after[o - 2..o] == [0x88, 0x47] <==> src.b6 | 0x88 == 0x88 && src.b7 | 0x47 == 0x47
  {
    WireParts(after, ip, dst, SourceField(src), labels, exp);
    LastTwo(after, ip - 4 * |labels|, SourceField(src));
    EthertypeBits(src);
  }

  lemma LastTwo<T>(after: seq<T>, o: nat, f: seq<T>)
    requires 8 <= o <= |after| && after[o - 8..o] == f
    ensures |f| == 8 && after[o - 2..o] == f[6..]
  {
    assert f[6] == after[o - 2] && f[7] == after[o - 1];
  }

  lemma EthertypeBits(s: Eight<bv8>)
    ensures SourceField(s)[6..] == [0x88, 0x47] <==> s.b6 | 0x88 == 0x88 && s.b7 | 0x47 == 0x47
  {
    assert SourceField(s)[6..] == [s.b6 | 0x88, s.b7 | 0x47];
    var f: seq<bv8>, g: seq<bv8> := [s.b6 | 0x88, s.b7 | 0x47], [0x88, 0x47];
    assert f == g <==> f[0] == g[0] && f[1] == g[1];
  }

  /** The same route, local or not, with another output port and next hop. */
  function Through(req: Request, local: bool, portId: bv32, nextHop: bv32): Request {
    req.(localFlag := local, portId := portId, nextHop := nextHop)
  }

  ghost predicate ExactThrough(m: seq<bv8>, config: Config, req: Request, source: seq<bv8>, color: Option<bv64>,
                               arpDst: seq<bv8>, local: bool, portId: bv32, nextHop: bv32)
    requires 1 <= req.nLabels <= |req.labels| && |source| == 8 && |arpDst| == 6
    requires Roomy(config, req.nLabels, |m|) && config.arp
  {
    HeaderExact(m, config, Through(req, local, portId, nextHop), source, color, arpDst)
  }

  /** The header is exact for every route through one of the output ports, each with its own source field. */
  ghost predicate AllExact(m: seq<bv8>, config: Config, req: Request, sources: bv32 -> seq<bv8>, color: Option<bv64>,
                           arpDst: seq<bv8>, nPorts: bv32)
    requires 1 <= req.nLabels <= |req.labels| && |arpDst| == 6 && forall p :: |sources(p)| == 8
    requires Roomy(config, req.nLabels, |m|) && config.arp
  {
    forall local, p, h | p < nPorts :: ExactThrough(m, config, req, sources(p), color, arpDst, local, p, h)
  }

  /** The key misses the header or, with a single output port, covers no more of it than the last TTL. */
  predicate KeySpares(config: Config, n: nat, nPorts: bv32) {
    KeyMisses(config, n) || (nPorts == 1 && config.arpKeyOffset == config.ipHdrOffset - 1)
  }

  /** With ARP on, the header is exact for every route if and only if the configured key spares it. */
  lemma AllExactIff(m: seq<bv8>, config: Config, req: Request, sources: bv32 -> seq<bv8>, color: Option<bv64>,
      arpDst: seq<bv8>, nPorts: bv32)
    requires 1 <= req.nLabels <= |req.labels| && |arpDst| == 6 && forall p :: |sources(p)| == 8
    requires Roomy(config, req.nLabels, |m|) && config.arp && nPorts > 0
    ensures AllExact(m, config, req, sources, color, arpDst, nPorts) <==> KeySpares(config, req.nLabels, nPorts)
  {
    var ip, at := config.ipHdrOffset, config.arpKeyOffset;
    if KeySpares(config, req.nLabels, nPorts) {
      forall local, p, h | p < nPorts ensures ExactThrough(m, config, req, sources(p), color, arpDst, local, p, h) {
        SparedIsExact(m, config, req, sources(p), color, arpDst, nPorts, local, p, h);
      }
    } else if at + 4 < ip {
      HopHits(m, config, req, sources(0), color, arpDst);
    } else if nPorts == 1 {
      PortZeroHits(m, config, req, sources(0), color, arpDst);
    } else {
      PortHits(m, config, req, sources(0), sources(1), color, arpDst);
    }
  }

  lemma SparedIsExact(m: seq<bv8>, config: Config, req: Request, source: seq<bv8>, color: Option<bv64>,
                      arpDst: seq<bv8>, nPorts: bv32, local: bool, p: bv32, h: bv32)
    requires 1 <= req.nLabels <= |req.labels| && |source| == 8 && |arpDst| == 6
    requires Roomy(config, req.nLabels, |m|) && config.arp && KeySpares(config, req.nLabels, nPorts) && p < nPorts
    ensures ExactThrough(m, config, req, source, color, arpDst, local, p, h)
  {
    ArpOnExactIff(m, config, Through(req, local, p, h), source, color, arpDst);
    if !KeyMisses(config, req.nLabels) {
      OnlyPort(p, nPorts);
      PortZero(m, config.ipHdrOffset, Through(req, local, p, h));
      ZeroOverTtl(config.ipHdrOffset, source, req.labels[..req.nLabels], Exp(color), config.arpKeyOffset,
        KeyBytes(m, config.ipHdrOffset, Through(req, local, p, h)));
    }
  }

  lemma OnlyPort(p: bv32, nPorts: bv32)
    requires p < nPorts && nPorts == 1
    ensures p == 0
  {
  }

  /** Part of the next hop falls on the header: of two opposite next hops one spoils it. */
  lemma HopHits(m: seq<bv8>, config: Config, req: Request, source: seq<bv8>, color: Option<bv64>, arpDst: seq<bv8>)
    requires 1 <= req.nLabels <= |req.labels| && |source| == 8 && |arpDst| == 6
    requires Roomy(config, req.nLabels, |m|) && config.arp && !KeyMisses(config, req.nLabels)
    requires config.arpKeyOffset + 4 < config.ipHdrOffset
    ensures !ExactThrough(m, config, req, source, color, arpDst, false, 0, 0)
         || !ExactThrough(m, config, req, source, color, arpDst, false, 0, 0xffff_ffff)
  {
    var ip, at, r, q := config.ipHdrOffset, config.arpKeyOffset, Through(req, false, 0, 0),
      Through(req, false, 0, 0xffff_ffff);
    var upper := Upper(source, req.labels[..req.nLabels], Exp(color));
    ArpOnExactIff(m, config, r, source, color, arpDst);
    ArpOnExactIff(m, config, q, source, color, arpDst);
    OppositeHops(m, ip, req);
    var i := if ip - |upper| <= at + 4 then 4 else ip - |upper| - at;
    NotBoth(ip, upper, upper, at, KeyBytes(m, ip, r), KeyBytes(m, ip, q), i);
  }

  lemma OppositeHops(m: seq<bv8>, ip: nat, req: Request)
    requires ip + 20 <= |m|
    ensures var r, q := Through(req, false, 0, 0), Through(req, false, 0, 0xffff_ffff);
      var k, l := KeyBytes(m, ip, r), KeyBytes(m, ip, q);
      forall i :: 4 <= i < 8 ==> k[i] != l[i]
  {
    var r, q := Through(req, false, 0, 0), Through(req, false, 0, 0xffff_ffff);
    KeyInNetworkOrder(m, ip, r);
    KeyInNetworkOrder(m, ip, q);
    ConstantWords();
    forall i | 4 <= i < 8 ensures KeyBytes(m, ip, r)[i] == 0 && KeyBytes(m, ip, q)[i] == 0xff {
      assert KeyBytes(m, ip, r)[4..][i - 4] == 0 && KeyBytes(m, ip, q)[4..][i - 4] == 0xff;
    }
  }

  /** Only the port falls on it, over the last label: one of two ports spoils it. */
  lemma PortHits(m: seq<bv8>, config: Config, req: Request, source0: seq<bv8>, source1: seq<bv8>,
      color: Option<bv64>, arpDst: seq<bv8>)
    requires 1 <= req.nLabels <= |req.labels| && |source0| == |source1| == 8 && |arpDst| == 6
    requires Roomy(config, req.nLabels, |m|) && config.arp
    requires config.ipHdrOffset - 4 <= config.arpKeyOffset < config.ipHdrOffset
    ensures !ExactThrough(m, config, req, source0, color, arpDst, false, 0, 0)
         || !ExactThrough(m, config, req, source1, color, arpDst, false, 1, 0)
  {
    var ip, r, q := config.ipHdrOffset, Through(req, false, 0, 0), Through(req, false, 1, 0);
    var stack := Stack(req.labels[..req.nLabels], Exp(color));
    ArpOnExactIff(m, config, r, source0, color, arpDst);
    ArpOnExactIff(m, config, q, source1, color, arpDst);
    PortsDiffer(m, ip, req);
    TailsClash(ip, source0, source1, stack, config.arpKeyOffset, KeyBytes(m, ip, r), KeyBytes(m, ip, q));
  }

  lemma PortsDiffer(m: seq<bv8>, ip: nat, req: Request)
    requires ip + 20 <= |m|
    ensures KeyBytes(m, ip, Through(req, false, 0, 0))[0] != KeyBytes(m, ip, Through(req, false, 1, 0))[0]
  {
    ConstantWords();
  }

  /** With a single port it takes the bottom-of-stack bit away. */
  lemma PortZeroHits(m: seq<bv8>, config: Config, req: Request, source: seq<bv8>, color: Option<bv64>,
      arpDst: seq<bv8>)
    requires 1 <= req.nLabels <= |req.labels| && |source| == 8 && |arpDst| == 6
    requires Roomy(config, req.nLabels, |m|) && config.arp
    requires config.ipHdrOffset - 4 <= config.arpKeyOffset < config.ipHdrOffset - 1
    ensures !ExactThrough(m, config, req, source, color, arpDst, false, 0, 0)
  {
    KeyOverLabels(m, config, Through(req, false, 0, 0), source, color, arpDst);
  }

  lemma PortZero(m: seq<bv8>, ip: nat, req: Request)
    requires ip + 20 <= |m| && req.portId == 0
    ensures forall i :: 0 <= i < 4 ==> KeyBytes(m, ip, req)[i] == 0
  {
    ConstantWords();
  }

  /** A label stack ends with the bottom-of-stack bit and a TTL of 0. */
  lemma {:induction false} StackEnds(labels: seq<bv64>, exp: bv64)
    requires labels != []
    ensures var b := Stack(labels, exp); b[|b| - 1] == 0 && b[|b| - 2] != 0
    decreases |labels|
  {
    if |labels| == 1 {
      assert labels == [labels[0]];
      StackOne(labels[0], exp);
      BottomIsOdd(labels[0], exp);
    } else {
      StackEnds(labels[1..], exp);
    }
  }

  lemma BottomIsOdd(tag: bv64, exp: bv64)
    ensures Byte2(tag, exp, 1) != 0
  {
  }

  lemma ZeroOverTtl(ip: nat, source: seq<bv8>, labels: seq<bv64>, exp: bv64, at: nat, k: seq<bv8>)
    requires labels != [] && |source| + 4 * |labels| <= ip && at == ip - 1 && |k| > 0 && k[0] == 0
    ensures Coincides(ip, Upper(source, labels, exp), at, k)
  {
    StackEnds(labels, exp);
    LastCovered(ip, source, Stack(labels, exp), at, k);
  }

  lemma ZeroOverBottom(ip: nat, source: seq<bv8>, labels: seq<bv64>, exp: bv64, at: nat, k: seq<bv8>)
    requires labels != [] && |source| + 4 * |labels| <= ip && ip - 4 <= at < ip - 1
    requires |k| >= 4 && forall i :: 0 <= i < 4 ==> k[i] == 0
    ensures !Coincides(ip, Upper(source, labels, exp), at, k)
  {
    StackEnds(labels, exp);
    SecondLastCovered(ip, source, Stack(labels, exp), at, k);
  }

  /** A key that starts over the last label: through port 0 every packet loses its bottom-of-stack bit. */
  lemma KeyOverLabels(m: seq<bv8>, config: Config, req: Request, source: seq<bv8>, color: Option<bv64>,
      arpDst: seq<bv8>)
    requires 1 <= req.nLabels <= |req.labels| && |source| == 8 && |arpDst| == 6 && req.portId == 0
    requires Roomy(config, req.nLabels, |m|) && config.arp
    requires config.ipHdrOffset - 4 <= config.arpKeyOffset < config.ipHdrOffset - 1
    ensures !HeaderExact(m, config, req, source, color, arpDst)
  {
    var ip, labels := config.ipHdrOffset, req.labels[..req.nLabels];
    ArpOnExactIff(m, config, req, source, color, arpDst);
    PortZero(m, ip, req);
    ZeroOverBottom(ip, source, labels, Exp(color), config.arpKeyOffset, KeyBytes(m, ip, req));
  }
}
