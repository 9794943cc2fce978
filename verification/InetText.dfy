/** Writing addresses, and reading back what was written. */
module InetText {
  import opened Basics
  import opened Inet4
  import opened Inet6

  function HexChar(d: nat): (c: char)
    requires d < 16
    ensures IsHex(c) && HexDigit(c) == d
  {
    if d < 10 then '0' + d as char else 'a' + (d - 10) as char
  }

  /** Two bytes as four hexadecimal digits. */
  function Hex4(hi: byte, lo: byte): (t: string)
    ensures IsGroup(t)
  {
    [HexChar(hi as int / 16), HexChar(hi as int % 16), HexChar(lo as int / 16), HexChar(lo as int % 16)]
  }

  lemma HexAppend(s: string, c: char)
    requires Hexes(s) && IsHex(c)
    ensures Hexes(s + [c]) && HexValue(s + [c]) == 16 * HexValue(s) + HexDigit(c)
  {
    assert (s + [c])[..|s|] == s;
  }

  lemma HexStep(t: string, k: nat)
    requires 0 < k <= |t| && Hexes(t)
    ensures HexValue(t[..k]) == 16 * HexValue(t[..k - 1]) + HexDigit(t[k - 1])
  {
    assert t[..k][..k - 1] == t[..k - 1];
  }

  lemma FourDigits(t: string)
    requires |t| == 4 && Hexes(t)
    ensures HexValue(t) == 256 * (16 * HexDigit(t[0]) + HexDigit(t[1])) + (16 * HexDigit(t[2]) + HexDigit(t[3]))
  {
    HexStep(t, 1);
    HexStep(t, 2);
    HexStep(t, 3);
    HexStep(t, 4);
    assert t[..4] == t;
  }

  lemma Hex4Value(hi: byte, lo: byte)
    ensures GroupBytes(Hex4(hi, lo)) == [hi, lo]
  {
    var t := Hex4(hi, lo);
    FourDigits(t);
    assert HexValue(t) == 256 * hi as int + lo as int;
  }

  function Groups(b: seq<byte>): (ts: seq<string>)
    requires |b| % 2 == 0
    ensures AllGroups(ts) && 2 * |ts| == |b|
  {
    if b == [] then [] else [Hex4(b[0], b[1])] + Groups(b[2..])
  }

  lemma {:induction false} GroupsRead(b: seq<byte>)
    requires |b| % 2 == 0
    ensures IsList(Groups(b)) && ListBytes(Groups(b)) == b
    decreases |b|
  {
    if b != [] {
      GroupsRead(b[2..]);
      ListCons(Hex4(b[0], b[1]), Groups(b[2..]));
      Hex4Value(b[0], b[1]);
      assert b == [b[0], b[1]] + b[2..];
    }
  }

  /** The eight-group text of any sixteen bytes reads back as those bytes. */
  lemma FullTextRoundTrip(b: seq<byte>)
    requires |b| == 16
    ensures Address(Join(Groups(b), ':')) == Some(b)
  {
    GroupsRead(b);
    GrammarIsAccepted(Full(Groups(b)));
  }

  lemma GapReads(left: seq<string>, right: seq<string>, l: seq<byte>, r: seq<byte>)
    requires AllGroups(left) && IsList(left) && IsList(right)
    requires ListBytes(left) == l && ListBytes(right) == r && |l| + |r| < 16
    ensures Address(Join(left, ':') + ("::" + Join(right, ':'))) == Some(l + (Zeros(16 - |l| - |r|) + r))
  {
    var f := Gap(left, right);
    assert IsForm(f);
    assert FormBytes(f) == l + (Zeros(16 - |l| - |r|) + r);
    GrammarIsAccepted(f);
  }

  /** A gap stands for the zeros between what is written on its two sides. */
  lemma GapRoundTrip(left: seq<byte>, right: seq<byte>)
    requires |left| % 2 == 0 && |right| % 2 == 0 && |left| + |right| < 16
    ensures Address(Join(Groups(left), ':') + ("::" + Join(Groups(right), ':')))
         == Some(left + (Zeros(16 - |left| - |right|) + right))
  {
    var l, r := Groups(left), Groups(right);
    GroupsRead(left);
    GroupsRead(right);
    GapReads(l, r, left, right);
  }

  // ----- decimal octets

  function Decimal(v: nat): (s: string)
    ensures s != "" && Digits(s)
    ensures v < 10 ==> |s| == 1
    ensures v < 100 ==> |s| <= 2
    ensures v < 1000 ==> |s| <= 3
  {
    var last := '0' + (v % 10) as char;
    if v < 10 then [last] else Decimal(v / 10) + [last]
  }

  lemma {:induction false} ExtendAppend(v: nat, s: string, c: char)
    requires Digits(s) && IsDigit(c)
    ensures Digits(s + [c]) && Extend(v, s + [c]) == 10 * Extend(v, s) + Digit(c)
    decreases |s|
  {
    if s == "" {
      assert s + [c] == [c] && [c][1..] == "";
    } else {
      assert (s + [c])[1..] == s[1..] + [c];
      ExtendAppend(10 * v + Digit(s[0]), s[1..], c);
    }
  }

  lemma {:induction false} DecimalValue(v: nat)
    ensures Extend(0, Decimal(v)) == v
    decreases v
  {
    var last := '0' + (v % 10) as char;
    if v < 10 {
      ExtendAppend(0, "", last);
      assert "" + [last] == [last];
    } else {
      DecimalValue(v / 10);
      ExtendAppend(0, Decimal(v / 10), last);
    }
  }

  function Octets(q: seq<byte>): (ts: seq<string>)
    ensures |ts| == |q| && forall i :: 0 <= i < |q| ==> ts[i] == Decimal(q[i] as int)
  {
    seq(|q|, i requires 0 <= i < |q| => Decimal(q[i] as int))
  }

  lemma OctetsRead(q: seq<byte>)
    ensures AllOctets(Octets(q)) && Values(Octets(q)) == q
  {
    forall i | 0 <= i < |q| ensures Extend(0, Octets(q)[i]) == q[i] as int {
      DecimalValue(q[i] as int);
    }
  }

  function Dotted(q: seq<byte>): string { Join(Octets(q), '.') }

  /** The dotted-quad text of any four bytes reads back as those bytes. */
  lemma DottedRoundTrip(q: seq<byte>)
    requires |q| == 4
    ensures DottedQuad(Dotted(q)) == Some(q) && IsTail(Dotted(q)) && !IsGroup(Dotted(q))
  {
    OctetsRead(q);
    QuadIsGrammar(Dotted(q), Octets(q));
    var ts := Octets(q);
    assert ts == [ts[0]] + ts[1..];
    JoinCons(ts[0], ts[1..], '.');
    var k := |ts[0]|;
    assert Dotted(q)[k] == '.' && Dotted(q)[..k] == ts[0];
  }

  lemma {:induction false} ListAppend(ts: seq<string>, t: string)
    requires AllGroups(ts) && IsTail(t) && !IsGroup(t)
    ensures IsList(ts) && IsList(ts + [t]) && ListBytes(ts + [t]) == ListBytes(ts) + DottedQuad(t).value
    decreases |ts|
  {
    GroupsAreLists(ts);
    if ts == [] {
      ListOne(t);
      assert ts + [t] == [t];
    } else {
      ListAppend(ts[1..], t);
      ListCons(ts[0], ts[1..] + [t]);
      Associate([ts[0]], ts[1..], [t]);
      assert [ts[0]] + ts[1..] == ts;
      Associate(GroupBytes(ts[0]), ListBytes(ts[1..]), DottedQuad(t).value);
    }
  }

  /** Six groups and a dotted quad read back as the sixteen bytes they were written from. */
  lemma MixedTextRoundTrip(b: seq<byte>)
    requires |b| == 16
    ensures Address(Join(Groups(b[..12]) + [Dotted(b[12..])], ':')) == Some(b)
  {
    GroupsRead(b[..12]);
    DottedRoundTrip(b[12..]);
    ListAppend(Groups(b[..12]), Dotted(b[12..]));
    assert b[..12] + b[12..] == b;
    GrammarIsAccepted(Full(Groups(b[..12]) + [Dotted(b[12..])]));
  }

  // ----- the code

  /** The shift by hand: moves `tmp[colonp..tp]` to the end, leaving zeros behind. */
  method OpenGap(tmp: array<byte>, colonp: nat, tp: nat)
    requires tmp.Length == 16 && colonp <= tp < 16 && tmp[tp..] == Zeros(16 - tp)
    modifies tmp
    ensures tmp[..] == old(tmp[..colonp]) + (Zeros(16 - tp) + old(tmp[colonp..tp]))
  {
    var n := tp - colonp;
    assert forall j :: tp <= j < 16 ==> tmp[j] == tmp[tp..][j - tp];
    for i := 1 to n + 1
      invariant forall j :: 0 <= j < tp + 1 - i ==> tmp[j] == old(tmp[j])
      invariant forall j :: tp + 1 - i <= j < 17 - i ==> tmp[j] == 0
      invariant forall j :: 17 - i <= j < 16 ==> tmp[j] == old(tmp[j - (16 - tp)])
    {
      tmp[16 - i] := tmp[colonp + n - i];
      tmp[colonp + n - i] := 0;
    }
  }

  /** The digits before position `i` of the group that starts at `curtok`. */
  ghost predicate Reading(src: string, i: nat, curtok: nat, cur: string) {
    curtok <= i <= |src| && cur == src[curtok..i] && |cur| <= 4 && Hexes(cur)
  }

  lemma HexMoves(src: string, i: nat, curtok: nat, cur: string, out: seq<byte>, colon: Option<nat>)
    requires Reading(src, i, curtok, cur) && i < |src| && IsHex(src[i])
    requires |out| <= 16 && (colon.Some? ==> colon.value <= |out|)
    ensures |cur| == 4 ==> Scan6(src[i..], cur, out, colon) == None
    ensures |cur| < 4 ==>
      && Reading(src, i + 1, curtok, cur + [src[i]])
      && HexValue(cur + [src[i]]) == 16 * HexValue(cur) + HexDigit(src[i])
      && Scan6(src[i..], cur, out, colon) == Scan6(src[i + 1..], cur + [src[i]], out, colon)
  {
    assert src[i..][0] == src[i] && src[i..][1..] == src[i + 1..];
    HexAppend(cur, src[i]);
    assert src[curtok..i + 1] == src[curtok..i] + [src[i]];
  }

  lemma ColonMoves(src: string, i: nat, curtok: nat, cur: string, out: seq<byte>, colon: Option<nat>)
    requires Reading(src, i, curtok, cur) && i < |src| && src[i] == ':'
    requires |out| <= 16 && (colon.Some? ==> colon.value <= |out|)
    ensures Reading(src, i + 1, i + 1, "")
    ensures Scan6(src[i..], cur, out, colon) ==
      if cur == "" then (if colon.Some? then None else Scan6(src[i + 1..], "", out, Some(|out|)))
      else if i + 1 == |src| || |out| + 2 > 16 then None
      else Scan6(src[i + 1..], "", out + GroupBytes(cur), colon)
  {
    assert src[i..][0] == src[i] && src[i..][1..] == src[i + 1..];
  }

  lemma OtherMoves(src: string, i: nat, curtok: nat, cur: string, out: seq<byte>, colon: Option<nat>)
    requires Reading(src, i, curtok, cur) && i < |src| && !IsHex(src[i]) && src[i] != ':'
    requires |out| <= 16 && (colon.Some? ==> colon.value <= |out|)
    ensures src[i] != '.' || |out| + 4 > 16 ==> Scan6(src[i..], cur, out, colon) == None
    ensures src[i] == '.' && |out| + 4 <= 16 ==>
      if DottedQuad(src[curtok..]).None? then Scan6(src[i..], cur, out, colon) == None
      else
        && |DottedQuad(src[curtok..]).value| == 4
        && Scan6(src[i..], cur, out, colon) == Close("", out + DottedQuad(src[curtok..]).value, colon)
  {
    assert src[curtok..] == cur + src[i..];
    if DottedQuad(src[curtok..]).Some? {
      QuadHasFour(src[curtok..]);
    }
  }

  method ParseAddress(src: string) returns (ok: bool, dst: seq<byte>)
    ensures Address(src) == if ok then Some(dst) else None
  {
    var tmp := new byte[16](_ => 0);
    var start := 0;
    if src != "" && src[0] == ':' {
      start := 1;
      if |src| == 1 || src[1] != ':' {
        return false, [];
      }
    }
    assert src[0..] == src && tmp[..0] == [];
    var accepted, tp, colonp, count, saw, val, cur := ScanLoop(src, start, tmp, Address(src));
    if !accepted {
      return false, [];
    }
    ok, dst := Conclude(tmp, tp, colonp, count, saw, val, cur);
  }

  /** `tp` bytes are written, two for every double octet; the rest are still zero. */
  ghost predicate Buffered(tmp: array<byte>, tp: nat, colonp: Option<nat>, dbloctCount: nat)
    reads tmp
  {
    && tmp.Length == 16 && tp == 2 * dbloctCount <= 16 && tmp[tp..] == Zeros(16 - tp)
    && (colonp.Some? ==> colonp.value <= tp)
  }

  /** A colon: opens the gap, or stores the group before it. */
  method OnColon(src: string, i: nat, tmp: array<byte>, tp: nat, colonp: Option<nat>, dbloctCount: nat,
                 sawXdigit: bool, val: nat, ghost curtok: nat, ghost cur: string)
    returns (ok: bool, tp': nat, colonp': Option<nat>, dbloctCount': nat)
    requires Reading(src, i, curtok, cur) && i < |src| && src[i] == ':'
    requires Buffered(tmp, tp, colonp, dbloctCount) && sawXdigit == (cur != "") && val == HexValue(cur)
    modifies tmp
    ensures !ok ==> old(Scan6(src[i..], cur, tmp[..tp], colonp)) == None
    ensures ok ==> Buffered(tmp, tp', colonp', dbloctCount') && Reading(src, i + 1, i + 1, "")
    ensures ok ==> old(Scan6(src[i..], cur, tmp[..tp], colonp)) == Scan6(src[i + 1..], "", tmp[..tp'], colonp')
  {
    ColonMoves(src, i, curtok, cur, tmp[..tp], colonp);
    if !sawXdigit {
      return colonp.None?, tp, Some(tp), dbloctCount;
    }
    if i + 1 == |src| || tp + 2 > 16 {
      return false, tp, colonp, dbloctCount;
    }
    Store(tmp, tp, val, cur);
    return true, tp + 2, colonp, dbloctCount + 1;
  }

  /** Neither digit nor colon: only a dotted quad that ends the text will do. */
  method OnDot(src: string, i: nat, curtok: nat, tmp: array<byte>, tp: nat, colonp: Option<nat>, dbloctCount: nat,
      ghost cur: string)
    returns (ok: bool, tp': nat, dbloctCount': nat)
    requires Reading(src, i, curtok, cur) && i < |src| && !IsHex(src[i]) && src[i] != ':'
    requires Buffered(tmp, tp, colonp, dbloctCount)
    modifies tmp
    ensures !ok ==> old(Scan6(src[i..], cur, tmp[..tp], colonp)) == None
    ensures ok ==> Buffered(tmp, tp', colonp, dbloctCount')
    ensures ok ==> old(Scan6(src[i..], cur, tmp[..tp], colonp)) == Close("", tmp[..tp'], colonp)
  {
    OtherMoves(src, i, curtok, cur, tmp[..tp], colonp);
    if src[i] != '.' || tp + 4 > 16 {
      return false, tp, dbloctCount;
    }
    var fits, quad := ParseQuad(src[curtok..]);
    if !fits {
      return false, tp, dbloctCount;
    }
    StoreQuad(tmp, tp, quad);
    return true, tp + 4, dbloctCount + 2;
  }

  /** The loop over the characters; `goal` is the result it is on the way to. */
  method ScanLoop(src: string, start: nat, tmp: array<byte>, ghost goal: Option<seq<byte>>)
    returns (ok: bool, tp: nat, colonp: Option<nat>, dbloctCount: nat, sawXdigit: bool, val: nat, ghost cur: string)
    requires start <= |src| && tmp.Length == 16 && tmp[..] == Zeros(16)
    requires goal == Scan6(src[start..], "", [], None)
    modifies tmp
    ensures !ok ==> goal == None
    ensures ok ==> Buffered(tmp, tp, colonp, dbloctCount)
    ensures ok ==> |cur| <= 4 && Hexes(cur) && sawXdigit == (cur != "") && (sawXdigit ==> val == HexValue(cur))
    ensures ok ==> goal == Close(cur, tmp[..tp], colonp)
  {
    ok, tp, colonp, dbloctCount := true, 0, None, 0;
    sawXdigit, val, cur := false, 0, "";
    var i: nat, curtok: nat, countXdigit := start, start, 0;
    assert tmp[0..] == tmp[..] && tmp[..0] == [];
    while i < |src|
      invariant Reading(src, i, curtok, cur) && Buffered(tmp, tp, colonp, dbloctCount) && ok
      invariant countXdigit == |cur| && sawXdigit == (cur != "") && val == HexValue(cur)
      invariant goal == Scan6(src[i..], cur, tmp[..tp], colonp)
    {
      var ch := src[i];
      if IsHex(ch) {
        HexMoves(src, i, curtok, cur, tmp[..tp], colonp);
        if countXdigit >= 4 {
          ok := false;
          return;
        }
        cur := cur + [ch];
        val := 16 * val + HexDigit(ch);
        sawXdigit, countXdigit := true, countXdigit + 1;
      } else if ch == ':' {
        ok, tp, colonp, dbloctCount := OnColon(src, i, tmp, tp, colonp, dbloctCount, sawXdigit, val, curtok, cur);
        if !ok {
          return;
        }
        curtok, sawXdigit, countXdigit, val, cur := i + 1, false, 0, 0, "";
      } else {
        ok, tp, dbloctCount := OnDot(src, i, curtok, tmp, tp, colonp, dbloctCount, cur);
        sawXdigit, cur := false, "";
        return;
      }
      i := i + 1;
    }
  }

  /** What follows the loop. */
  method Conclude(tmp: array<byte>, tp0: nat, colonp: Option<nat>, count0: nat, sawXdigit: bool, val: nat,
      ghost cur: string)
    returns (ok: bool, dst: seq<byte>)
    requires Buffered(tmp, tp0, colonp, count0)
    requires |cur| <= 4 && Hexes(cur) && sawXdigit == (cur != "") && (sawXdigit ==> val == HexValue(cur))
    modifies tmp
    ensures old(Close(cur, tmp[..tp0], colonp)) == if ok then Some(dst) else None
  {
    ok, dst := false, [];
    var tp, dbloctCount := tp0, count0;
    if sawXdigit {
      if tp + 2 > 16 {
        return;
      }
      Store(tmp, tp, val, cur);
      tp, dbloctCount := tp + 2, dbloctCount + 1;
    }
    if colonp.Some? {
      if dbloctCount == 8 {
        return;
      }
      assert tmp[..tp][..colonp.value] == tmp[..colonp.value] && tmp[..tp][colonp.value..] == tmp[colonp.value..tp];
      OpenGap(tmp, colonp.value, tp);
      tp := 16;
    }
    if tp != 16 {
      return;
    }
    ok, dst := true, tmp[..];
    assert tmp[..] == tmp[..16];
  }

  /** Stores the open group at `tp`. */
  method Store(tmp: array<byte>, tp: nat, val: nat, ghost cur: string)
    requires tmp.Length == 16 && tp + 2 <= 16 && IsGroup(cur) && val == HexValue(cur) && tmp[tp..] == Zeros(16 - tp)
    modifies tmp
    ensures tmp[..tp + 2] == old(tmp[..tp]) + GroupBytes(cur) && tmp[tp + 2..] == Zeros(14 - tp)
  {
    assert forall j :: tp <= j < 16 ==> tmp[j] == tmp[tp..][j - tp];
    tmp[tp] := val / 256;
    tmp[tp + 1] := val % 256;
  }

  method StoreQuad(tmp: array<byte>, tp: nat, quad: seq<byte>)
    requires tmp.Length == 16 && tp + 4 <= 16 && |quad| == 4 && tmp[tp..] == Zeros(16 - tp)
    modifies tmp
    ensures tmp[..tp + 4] == old(tmp[..tp]) + quad && tmp[tp + 4..] == Zeros(12 - tp)
  {
    assert forall j :: tp <= j < 16 ==> tmp[j] == tmp[tp..][j - tp];
    forall j | 0 <= j < 4 {
      tmp[tp + j] := quad[j];
    }
  }
}
