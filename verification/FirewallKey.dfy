/** Firewall keys: checking, normalizing, and what they match. */
module FirewallKey {
  import opened Basics
  import opened BitMask

  datatype Key = Key(
    srcIp: nat, srcDepth: nat, dstIp: nat, dstDepth: nat,
    srcFrom: nat, srcTo: nat, dstFrom: nat, dstTo: nat,
    proto: nat, protoMask: nat)

  datatype Header = Header(srcIp: nat, dstIp: nat, srcPort: nat, dstPort: nat, proto: nat)

  /** An address with its low `n` bits cleared, and without them. */
  function Clear(ip: nat, n: nat): nat { if n == 0 then ip else 2 * Clear(ip / 2, n - 1) }

  function Prefix(ip: nat, n: nat): nat { if n == 0 then ip else Prefix(ip / 2, n - 1) }

  /** Clearing is the bitwise "and" with a netmask. */
  lemma {:induction false} ClearBits(ip: nat, n: nat, i: nat)
    ensures Bit(Clear(ip, n), i) == (i >= n && Bit(ip, i))
    decreases n
  {
    if n != 0 {
      Halves(0, Clear(ip / 2, n - 1));
      if i != 0 {
        ClearBits(ip / 2, n - 1, i - 1);
      }
    }
  }

  /** app_pipeline_firewall_key_check_and_normalize. */
  function Normalize(k: Key): Option<Key> {
    if k.srcDepth > 32 || k.dstDepth > 32 || k.srcFrom > k.srcTo || k.dstFrom > k.dstTo then None
    else Some(k.(srcIp := Clear(k.srcIp, 32 - k.srcDepth), dstIp := Clear(k.dstIp, 32 - k.dstDepth)))
  }

  /** The headers a checked key matches: prefixes, port ranges, masked protocol. */
  predicate Matches(k: Key, h: Header)
    requires k.srcDepth <= 32 && k.dstDepth <= 32
  {
    && Prefix(h.srcIp, 32 - k.srcDepth) == Prefix(k.srcIp, 32 - k.srcDepth)
    && Prefix(h.dstIp, 32 - k.dstDepth) == Prefix(k.dstIp, 32 - k.dstDepth)
    && k.srcFrom <= h.srcPort <= k.srcTo && k.dstFrom <= h.dstPort <= k.dstTo
    && And(h.proto, k.protoMask) == And(k.proto, k.protoMask)
  }

  lemma {:induction false} ClearTwice(ip: nat, n: nat)
    ensures Clear(Clear(ip, n), n) == Clear(ip, n)
    decreases n
  {
    if n != 0 {
      Halves(0, Clear(ip / 2, n - 1));
      ClearTwice(ip / 2, n - 1);
    }
  }

  lemma {:induction false} ClearKeepsPrefix(ip: nat, n: nat)
    ensures Prefix(Clear(ip, n), n) == Prefix(ip, n)
    decreases n
  {
    if n != 0 {
      Halves(0, Clear(ip / 2, n - 1));
      ClearKeepsPrefix(ip / 2, n - 1);
    }
  }

  /** A key is accepted exactly with depths of at most 32 and port ranges that are not reversed.  Of each address
      the bits above the depth's boundary stay and the others go; nothing else changes. */
  lemma NormalizeExact(k: Key, i: nat)
    ensures Normalize(k).Some? <==> k.srcDepth <= 32 && k.dstDepth <= 32 && k.srcFrom <= k.srcTo && k.dstFrom <= k.dstTo
    ensures Normalize(k).Some? ==>
      var n := Normalize(k).value;
      && Bit(n.srcIp, i) == (i + k.srcDepth >= 32 && Bit(k.srcIp, i))
      && Bit(n.dstIp, i) == (i + k.dstDepth >= 32 && Bit(k.dstIp, i))
      && n == k.(srcIp := n.srcIp, dstIp := n.dstIp)
  {
    if Normalize(k).Some? {
      ClearBits(k.srcIp, 32 - k.srcDepth, i);
      ClearBits(k.dstIp, 32 - k.dstDepth, i);
    }
  }

  lemma NormalizeTwice(k: Key)
    ensures Normalize(k).Some? ==> Normalize(Normalize(k).value) == Normalize(k)
  {
    if Normalize(k).Some? {
      ClearTwice(k.srcIp, 32 - k.srcDepth);
      ClearTwice(k.dstIp, 32 - k.dstDepth);
    }
  }

  lemma NormalizeKeepsMatches(k: Key, h: Header)
    requires Normalize(k).Some?
    ensures Matches(Normalize(k).value, h) <==> Matches(k, h)
  {
    ClearKeepsPrefix(k.srcIp, 32 - k.srcDepth);
    ClearKeepsPrefix(k.dstIp, 32 - k.dstDepth);
  }

  /** Two addresses with the same prefix normalize to the same address, so equal rules get equal keys. */
  lemma {:induction false} SamePrefixSameKey(a: nat, b: nat, n: nat)
    ensures Prefix(a, n) == Prefix(b, n) <==> Clear(a, n) == Clear(b, n)
    decreases n
  {
    if n != 0 {
      SamePrefixSameKey(a / 2, b / 2, n - 1);
    }
  }
}
