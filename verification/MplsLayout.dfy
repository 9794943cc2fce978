/** Overlapping slabs, written in order, leave a contiguous header. */
module MplsLayout {
  import opened PacketMemory

  /** The three whole slabs, each on top of the last. */
  function Slabs<T>(m: seq<T>, o0: nat, w0: seq<T>, o1: nat, w1: seq<T>, o2: nat, w2: seq<T>): (r: seq<T>)
    requires o0 + |w0| <= |m| && o1 + |w1| <= |m| && o2 + |w2| <= |m|
    ensures |r| == |m|
  {
    Overwrite(Overwrite(Overwrite(m, o0, w0), o1, w1), o2, w2)
  }

  /** Where slab 1 goes, and what of slabs 0 and 1 stays visible, for each number of labels. */
  function Offset1(ip: nat, n: nat): (o: int) { if n <= 2 then ip - 8 else ip - 16 }

  function Visible<T>(n: nat, w0: seq<T>, w1: seq<T>): (r: seq<T>)
    requires 1 <= n <= 4 && |w0| == 8 && |w1| == 8
    ensures |r| == 4 * n
  {
    if n == 1 then w1[4..] else if n == 2 then w1 else if n == 3 then w1[4..] + w0 else w1 + w0
  }

  lemma OverwriteIs<T>(m: seq<T>, o: nat, b: seq<T>)
    requires o + |b| <= |m|
    ensures Overwrite(m, o, b) == m[..o] + (b + m[o + |b|..])
  {
  }

  lemma OverwriteAt<T>(m: seq<T>, o: nat, b: seq<T>, j: nat)
    requires o + |b| <= |m| && j < |m|
    ensures Overwrite(m, o, b)[j] == if o <= j < o + |b| then b[j - o] else m[j]
  {
  }

  /** Memory with a header right below the IP header, and nothing else changed. */
  function WithHeader<T>(m: seq<T>, ip: nat, header: seq<T>): (r: seq<T>)
    requires |header| <= ip <= |m|
    ensures |r| == |m|
  {
    m[..ip - |header|] + (header + m[ip..])
  }

  lemma WithHeaderAt<T>(m: seq<T>, ip: nat, header: seq<T>, j: nat)
    requires |header| <= ip <= |m| && j < |m|
    ensures WithHeader(m, ip, header)[j] == if ip - |header| <= j < ip then header[j - (ip - |header|)] else m[j]
  {
  }

  ghost predicate SlabsFor<T>(ip: nat, n: nat, o0: nat, w0: seq<T>, o1: nat, w1: seq<T>, o2: nat, w2: seq<T>) {
    && 1 <= n <= 4 && |w0| == 8 && |w1| == 8 && |w2| == 8 && 4 * n + 16 <= ip
    && o0 == ip - 8 && o1 == Offset1(ip, n) && o2 == ip - (4 * n + 8)
  }

  lemma SlabsAt<T>(m: seq<T>, ip: nat, n: nat, o0: nat, w0: seq<T>, o1: nat, w1: seq<T>, o2: nat, w2: seq<T>, j: nat)
    requires SlabsFor(ip, n, o0, w0, o1, w1, o2, w2) && ip <= |m| && j < |m|
    ensures Slabs(m, o0, w0, o1, w1, o2, w2)[j]
         == if o2 <= j < o2 + 8 then w2[j - o2]
            else if o1 <= j < o1 + 8 then w1[j - o1]
            else if o0 <= j < o0 + 8 then w0[j - o0] else m[j]
  {
    var m0 := Overwrite(m, o0, w0);
    var m1 := Overwrite(m0, o1, w1);
    OverwriteAt(m, o0, w0, j);
    OverwriteAt(m0, o1, w1, j);
    OverwriteAt(m1, o2, w2, j);
  }

  lemma ShownAt<T>(m: seq<T>, ip: nat, n: nat, o0: nat, w0: seq<T>, o1: nat, w1: seq<T>, o2: nat, w2: seq<T>,
      shown: seq<T>, j: nat)
    requires SlabsFor(ip, n, o0, w0, o1, w1, o2, w2) && ip <= |m| && j < |m| && shown == w2 + Visible(n, w0, w1)
    ensures Slabs(m, o0, w0, o1, w1, o2, w2)[j] == WithHeader(m, ip, shown)[j]
  {
    SlabsAt(m, ip, n, o0, w0, o1, w1, o2, w2, j);
    WithHeaderAt(m, ip, shown, j);
  }

  /** The slabs show as slab 2 and the label bytes, right below the IP header. */
  lemma SlabsAreHeader<T>(m: seq<T>, ip: nat, n: nat, o0: nat, w0: seq<T>, o1: nat, w1: seq<T>, o2: nat, w2: seq<T>,
      shown: seq<T>)
    requires SlabsFor(ip, n, o0, w0, o1, w1, o2, w2) && ip <= |m| && shown == w2 + Visible(n, w0, w1)
    ensures Slabs(m, o0, w0, o1, w1, o2, w2) == WithHeader(m, ip, shown)
  {
    var l, r := Slabs(m, o0, w0, o1, w1, o2, w2), WithHeader(m, ip, shown);
    forall j: nat | j < |m| ensures l[j] == r[j] {
      ShownAt(m, ip, n, o0, w0, o1, w1, o2, w2, shown, j);
    }
  }

  /** Writing right below a header extends it. */
  lemma HeaderExtends<T>(m: seq<T>, ip: nat, header: seq<T>, more: seq<T>, at: nat)
    requires |more| + |header| <= ip <= |m| && at == ip - |header| - |more|
    ensures Overwrite(WithHeader(m, ip, header), at, more) == WithHeader(m, ip, more + header)
  {
    var k := ip - |header|;
    var shown := header + m[ip..];
    assert (m[..k] + shown)[..k - |more|] == m[..k - |more|];
    assert (m[..k] + shown)[k..] == shown;
    OverwriteIs(m[..k] + shown, k - |more|, more);
    assert more + (header + m[ip..]) == (more + header) + m[ip..];
  }

  // ----- something else written in between

  /** The header part, then eight bytes of key, then the address in front of the header part. */
  function WithKey<T>(m: seq<T>, ip: nat, upper: seq<T>, at: nat, key: seq<T>, address: seq<T>): (r: seq<T>)
    requires |address| + |upper| <= ip <= |m| && at + |key| <= |m|
    ensures |r| == |m|
  {
    Overwrite(Overwrite(WithHeader(m, ip, upper), at, key), ip - |upper| - |address|, address)
  }

  lemma WithKeyAt<T>(m: seq<T>, ip: nat, upper: seq<T>, at: nat, key: seq<T>, address: seq<T>, j: nat)
    requires |address| + |upper| <= ip <= |m| && at + |key| <= |m| && j < |m|
    ensures var top, low := ip - |upper|, ip - |upper| - |address|;
      WithKey(m, ip, upper, at, key, address)[j] ==
      if low <= j < top then address[j - low]
      else if at <= j < at + |key| then key[j - at]
      else if top <= j < ip then upper[j - top] else m[j]
  {
    var w := WithHeader(m, ip, upper);
    WithHeaderAt(m, ip, upper, j);
    OverwriteAt(w, at, key, j);
    OverwriteAt(Overwrite(w, at, key), ip - |upper| - |address|, address, j);
  }

  /** Where the key covers the header part it happens to write what is there. */
  ghost predicate Coincides<T(!new)>(ip: nat, upper: seq<T>, at: nat, key: seq<T>)
    requires |upper| <= ip
  {
    var top := ip - |upper|;
    forall i :: 0 <= i < |upper| && at <= top + i < at + |key| ==> upper[i] == key[top + i - at]
  }

  /** A key byte that differs from the header byte it covers. */
  lemma NotThere<T(!new)>(ip: nat, upper: seq<T>, at: nat, k: seq<T>, i: nat)
    requires |upper| <= ip && i < |k| && ip - |upper| <= at + i < ip && upper[at + i - (ip - |upper|)] != k[i]
    ensures !Coincides(ip, upper, at, k)
  {
    var j := at + i - (ip - |upper|);
    assert upper[j] != k[i];
  }

  /** Two keys that differ in a byte cannot both agree with headers that are equal there. */
  lemma NotBoth<T(!new)>(ip: nat, u: seq<T>, v: seq<T>, at: nat, k: seq<T>, l: seq<T>, i: nat)
    requires |u| == |v| <= ip && i < |k| == |l| && k[i] != l[i]
    requires ip - |u| <= at + i < ip && u[at + i - (ip - |u|)] == v[at + i - (ip - |u|)]
    ensures !(Coincides(ip, u, at, k) && Coincides(ip, v, at, l))
  {
    if u[at + i - (ip - |u|)] != k[i] {
      NotThere(ip, u, at, k, i);
    } else {
      NotThere(ip, v, at, l, i);
    }
  }

  lemma TailsClash<T(!new)>(ip: nat, a: seq<T>, b: seq<T>, tail: seq<T>, at: nat, k: seq<T>, l: seq<T>)
    requires |a| == |b| && |a| + |tail| <= ip && |k| == |l| > 0 && k[0] != l[0] && ip - |tail| <= at < ip
    ensures !(Coincides(ip, a + tail, at, k) && Coincides(ip, b + tail, at, l))
  {
    NotBoth(ip, a + tail, b + tail, at, k, l, 0);
  }

  /** The last byte alone is covered. */
  lemma LastCovered<T(!new)>(ip: nat, a: seq<T>, tail: seq<T>, at: nat, k: seq<T>)
    requires |a| + |tail| <= ip && |tail| > 0 && |k| > 0 && at == ip - 1 && k[0] == tail[|tail| - 1]
    ensures Coincides(ip, a + tail, at, k)
  {
  }

  /** The last byte but one is covered by something else. */
  lemma SecondLastCovered<T(!new)>(ip: nat, a: seq<T>, tail: seq<T>, at: nat, k: seq<T>)
    requires |a| + |tail| <= ip && |tail| >= 2 && at <= ip - 2 < at + |k| && k[ip - 2 - at] != tail[|tail| - 2]
    ensures !Coincides(ip, a + tail, at, k)
  {
    NotThere(ip, a + tail, at, k, ip - 2 - at);
  }

  /** The bytes in front of the IP header are address and header part exactly when the key does not disturb them. */
  lemma HeaderExactIff<T(!new)>(m: seq<T>, ip: nat, upper: seq<T>, at: nat, key: seq<T>, address: seq<T>)
    requires |address| + |upper| <= ip <= |m| && at + |key| <= |m|
    ensures WithKey(m, ip, upper, at, key, address)[ip - |upper| - |address|..ip] == address + upper
       <==> Coincides(ip, upper, at, key)
  {
    var r, low, top := WithKey(m, ip, upper, at, key, address), ip - |upper| - |address|, ip - |upper|;
    var shown, h := r[low..ip], address + upper;
    forall j | 0 <= j < |h| ensures shown[j] == r[low + j] {
      assert |shown| == |h|;
    }
    forall j | 0 <= j < |address| ensures shown[j] == h[j] {
      WithKeyAt(m, ip, upper, at, key, address, low + j);
    }
    forall i | 0 <= i < |upper|
      ensures h[|address| + i] == upper[i]
      ensures shown[|address| + i] == if at <= top + i < at + |key| then key[top + i - at] else upper[i]
    {
      WithKeyAt(m, ip, upper, at, key, address, top + i);
    }
    if Coincides(ip, upper, at, key) {
      forall j | 0 <= j < |h| ensures shown[j] == h[j] {
        if j >= |address| {
          assert upper[j - |address|] == h[j];
        }
      }
    } else {
      var i :| 0 <= i < |upper| && at <= top + i < at + |key| && upper[i] != key[top + i - at];
      assert shown[|address| + i] != h[|address| + i];
    }
  }
}
