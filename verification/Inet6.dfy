/** IPv6 address parsing, as written and as a grammar. */
module Inet6 {
  import opened Basics
  import opened Inet4

  predicate IsHex(c: char) { IsDigit(c) || 'a' <= c <= 'f' || 'A' <= c <= 'F' }

  function HexDigit(c: char): (d: nat)
    requires IsHex(c)
    ensures d < 16
  {
    if IsDigit(c) then Digit(c)
    else if 'a' <= c <= 'f' then 10 + (c as int - 'a' as int)
    else 10 + (c as int - 'A' as int)
  }

  /** The digits of the two alphabets are hexadecimal, and the value of each is its place. */
  lemma HexPlace(i: nat)
    requires i < 16
    ensures var c, d := "0123456789abcdef"[i], "0123456789ABCDEF"[i];
      IsHex(c) && HexDigit(c) == i && IsHex(d) && HexDigit(d) == i
  {
  }

  /** There are no others. */
  lemma HexOnly(c: char) returns (i: nat)
    requires IsHex(c)
    ensures i < 16 && (c == "0123456789abcdef"[i] || c == "0123456789ABCDEF"[i])
  {
    i := HexDigit(c);
  }

  predicate Hexes(s: string) { forall i :: 0 <= i < |s| ==> IsHex(s[i]) }

  /** Value of a string of hexadecimal digits. */
  function HexValue(s: string): (v: nat)
    requires Hexes(s)
    ensures |s| == 0 ==> v == 0
    ensures |s| <= 1 ==> v < 0x10
    ensures |s| <= 2 ==> v < 0x100
    ensures |s| <= 3 ==> v < 0x1000
    ensures |s| <= 4 ==> v < 0x1_0000
  {
    if s == "" then 0 else 16 * HexValue(s[..|s| - 1]) + HexDigit(s[|s| - 1])
  }

  // ----- the grammar

  predicate IsGroup(t: string) { 1 <= |t| <= 4 && Hexes(t) }

  /** The two bytes of a 16-bit group, in network order. */
  function GroupBytes(t: string): (b: seq<byte>)
    requires IsGroup(t)
    ensures |b| == 2
  {
    [HexValue(t) / 256, HexValue(t) % 256]
  }

  /** A dotted quad, at most four digits in its first octet. */
  ghost predicate IsTail(t: string) {
    DottedQuad(t).Some? && exists k :: 1 <= k <= 4 && k < |t| && t[k] == '.' && Digits(t[..k])
  }

  /** Groups, of which the last may be a dotted quad instead. */
  ghost predicate IsList(ts: seq<string>) {
    forall i :: 0 <= i < |ts| ==> IsGroup(ts[i]) || (i == |ts| - 1 && IsTail(ts[i]))
  }

  ghost predicate AllGroups(ts: seq<string>) { forall i :: 0 <= i < |ts| ==> IsGroup(ts[i]) }

  ghost function TokenBytes(t: string): seq<byte>
    requires IsGroup(t) || IsTail(t)
  {
    if IsGroup(t) then GroupBytes(t) else DottedQuad(t).value
  }

  ghost function ListBytes(ts: seq<string>): seq<byte>
    requires IsList(ts)
  {
    if ts == [] then [] else TokenBytes(ts[0]) + ListBytes(ts[1..])
  }

  /** left "::" right, or just left. */
  datatype Form = Full(list: seq<string>) | Gap(left: seq<string>, right: seq<string>)

  ghost predicate IsForm(f: Form) {
    match f
    case Full(list) => IsList(list) && |ListBytes(list)| == 16
    case Gap(left, right) =>
      && AllGroups(left)
      && IsList(left) && IsList(right)
      && |ListBytes(left)| + |ListBytes(right)| < 16
  }

  function Text(f: Form): string {
    match f
    case Full(list) => Join(list, ':')
    case Gap(left, right) => Join(left, ':') + ("::" + Join(right, ':'))
  }

  ghost function FormBytes(f: Form): seq<byte>
    requires IsForm(f)
  {
    match f
    case Full(list) => ListBytes(list)
    case Gap(left, right) =>
      ListBytes(left) + (Zeros(16 - |ListBytes(left)| - |ListBytes(right)|) + ListBytes(right))
  }

  // ----- the scanner, step by step

  /** The end of the text: store the open group, open the gap, check the length. */
  function Close(cur: string, out: seq<byte>, colon: Option<nat>): Option<seq<byte>>
    requires |cur| <= 4 && Hexes(cur) && |out| <= 16 && (colon.Some? ==> colon.value <= |out|)
  {
    if cur != "" && |out| + 2 > 16 then None
    else
      var all := if cur == "" then out else out + GroupBytes(cur);
      if colon.None? then (if |all| == 16 then Some(all) else None)
      else if |all| == 16 then None
      else Some(all[..colon.value] + (Zeros(16 - |all|) + all[colon.value..]))
  }

  /** Scans the rest `s` with the digits `cur` read of the current group. */
  function Scan6(s: string, cur: string, out: seq<byte>, colon: Option<nat>): Option<seq<byte>>
    requires |cur| <= 4 && Hexes(cur) && |out| <= 16 && (colon.Some? ==> colon.value <= |out|)
    decreases |s|
  {
    if s == "" then Close(cur, out, colon)
    else if IsHex(s[0]) then
      (if |cur| >= 4 then None else Scan6(s[1..], cur + [s[0]], out, colon))
    else if s[0] == ':' then
      if cur == "" then (if colon.Some? then None else Scan6(s[1..], "", out, Some(|out|)))
      else if |s| == 1 || |out| + 2 > 16 then None
      else Scan6(s[1..], "", out + GroupBytes(cur), colon)
    else if s[0] == '.' && |out| + 4 <= 16 && DottedQuad(cur + s).Some? then
      QuadHasFour(cur + s);
      Close("", out + DottedQuad(cur + s).value, colon)
    else None
  }

  lemma QuadHasFour(s: string)
    requires DottedQuad(s).Some?
    ensures |DottedQuad(s).value| == 4
  {
    var tokens := GrammarOfQuad(s);
  }

  /** A leading colon must be the first of two. */
  function Address(s: string): Option<seq<byte>> {
    if s != "" && s[0] == ':' then (if |s| == 1 || s[1] != ':' then None else Scan6(s[1..], "", [], None))
    else Scan6(s, "", [], None)
  }

  // ----- everything in the grammar is accepted

  /** Scanning the digits of a group. */
  lemma {:induction false} ScanGroup(a: string, rest: string, cur: string, out: seq<byte>, colon: Option<nat>)
    requires |cur| + |a| <= 4 && Hexes(cur) && Hexes(a) && |out| <= 16 && (colon.Some? ==> colon.value <= |out|)
    ensures Hexes(cur + a) && Scan6(a + rest, cur, out, colon) == Scan6(rest, cur + a, out, colon)
    decreases |a|
  {
    if a == "" {
      assert a + rest == rest && cur + a == cur;
    } else {
      assert (a + rest)[0] == a[0] && (a + rest)[1..] == a[1..] + rest;
      assert (cur + [a[0]]) + a[1..] == cur + a;
      ScanGroup(a[1..], rest, cur + [a[0]], out, colon);
    }
  }

  lemma ScanOneGroup(t: string, rest: string, out: seq<byte>, colon: Option<nat>)
    requires IsGroup(t) && |out| <= 14 && rest != "" && (colon.Some? ==> colon.value <= |out|)
    ensures Scan6(t + (":" + rest), "", out, colon) == Scan6(rest, "", out + GroupBytes(t), colon)
  {
    ScanGroup(t, ":" + rest, "", out, colon);
    assert "" + t == t && (":" + rest)[1..] == rest;
  }

  lemma ScanLastGroup(t: string, out: seq<byte>, colon: Option<nat>)
    requires IsGroup(t) && |out| <= 16 && (colon.Some? ==> colon.value <= |out|)
    ensures Scan6(t, "", out, colon) == Close(t, out, colon)
  {
    ScanGroup(t, "", "", out, colon);
    assert t + "" == t && "" + t == t;
  }

  lemma ScanTail(t: string, out: seq<byte>, colon: Option<nat>)
    requires IsTail(t) && |out| + 4 <= 16 && (colon.Some? ==> colon.value <= |out|)
    ensures |DottedQuad(t).value| == 4 && Scan6(t, "", out, colon) == Close("", out + DottedQuad(t).value, colon)
  {
    QuadHasFour(t);
    var k :| 1 <= k <= 4 && k < |t| && t[k] == '.' && Digits(t[..k]);
    assert Hexes(t[..k]);
    ScanGroup(t[..k], t[k..], "", out, colon);
    assert t[..k] + t[k..] == t && "" + t[..k] == t[..k];
  }

  lemma ListCons(t: string, rest: seq<string>)
    requires IsGroup(t) && IsList(rest)
    ensures IsList([t] + rest) && ListBytes([t] + rest) == GroupBytes(t) + ListBytes(rest)
  {
    assert ([t] + rest)[1..] == rest;
  }

  lemma ListOne(t: string)
    requires IsGroup(t) || IsTail(t)
    ensures IsList([t]) && ListBytes([t]) == TokenBytes(t)
  {
    assert [t][1..] == [];
    assert ListBytes([t]) == TokenBytes(t) + [];
  }

  lemma JoinSome(ts: seq<string>)
    requires IsList(ts) && ts != []
    ensures Join(ts, ':') != ""
  {
    assert ts[0] != "";
  }

  /** Scanning a whole list. */
  lemma {:induction false} ScanList(ts: seq<string>, out: seq<byte>, colon: Option<nat>)
    requires IsList(ts) && |out| + |ListBytes(ts)| <= 16 && (colon.Some? ==> colon.value <= |out|)
    ensures Scan6(Join(ts, ':'), "", out, colon) == Close("", out + ListBytes(ts), colon)
    decreases |ts|
  {
    if ts == [] {
      assert out + ListBytes(ts) == out;
    } else if |ts| == 1 {
      assert ts == [ts[0]];
      ListOne(ts[0]);
      if IsGroup(ts[0]) {
        ScanLastGroup(ts[0], out, colon);
      } else {
        QuadHasFour(ts[0]);
        ScanTail(ts[0], out, colon);
      }
    } else {
      var t, rest := ts[0], ts[1..];
      assert ts == [t] + rest && IsGroup(t);
      ListCons(t, rest);
      JoinCons(t, rest, ':');
      JoinSome(rest);
      ScanOneGroup(t, Join(rest, ':'), out, colon);
      Associate(out, GroupBytes(t), ListBytes(rest));
      ScanList(rest, out + GroupBytes(t), colon);
    }
  }

  lemma {:induction false} GroupsAreLists(ts: seq<string>)
    requires AllGroups(ts)
    ensures IsList(ts) && |ListBytes(ts)| == 2 * |ts|
    decreases |ts|
  {
    if ts != [] {
      GroupsAreLists(ts[1..]);
    }
  }

  lemma ScanGap(t: string, rest: string, out: seq<byte>)
    requires IsGroup(t) && |out| <= 14
    ensures IsList([t]) && ListBytes([t]) == GroupBytes(t)
    ensures Scan6(t + ("::" + rest), "", out, None) == Scan6(rest, "", out + GroupBytes(t), Some(|out| + 2))
  {
    ListOne(t);
    assert "::" + rest == ":" + (":" + rest);
    ScanOneGroup(t, ":" + rest, out, None);
    assert (":" + rest)[1..] == rest;
  }

  /** Scanning the groups before a gap. */
  lemma {:induction false} ScanLeft(ts: seq<string>, rest: string, out: seq<byte>)
    requires ts != [] && AllGroups(ts) && |out| + 2 * |ts| <= 16
    ensures IsList(ts) && |out + ListBytes(ts)| <= 16
    ensures Scan6(Join(ts, ':') + ("::" + rest), "", out, None)
         == Scan6(rest, "", out + ListBytes(ts), Some(|out + ListBytes(ts)|))
    decreases |ts|
  {
    GroupsAreLists(ts);
    var t, ts' := ts[0], ts[1..];
    assert ts == [t] + ts';
    if ts' == [] {
      ScanGap(t, rest, out);
    } else {
      GroupsAreLists(ts');
      ListCons(t, ts');
      JoinCons(t, ts', ':');
      var more := Join(ts', ':') + ("::" + rest);
      Associate(t, ":" + Join(ts', ':'), "::" + rest);
      Associate(":", Join(ts', ':'), "::" + rest);
      ScanOneGroup(t, more, out, None);
      Associate(out, GroupBytes(t), ListBytes(ts'));
      ScanLeft(ts', rest, out + GroupBytes(t));
    }
  }

  lemma CloseGap(left: seq<byte>, right: seq<byte>)
    requires |left| + |right| < 16
    ensures Close("", left + right, Some(|left|)) == Some(left + (Zeros(16 - |left| - |right|) + right))
  {
    assert (left + right)[..|left|] == left && (left + right)[|left|..] == right;
  }

  lemma StartsWithHex(ts: seq<string>, rest: string)
    requires ts != [] && IsList(ts)
    ensures Join(ts, ':') != "" && IsHex((Join(ts, ':') + rest)[0])
  {
    assert ts[0] != "" && IsHex(ts[0][0]);
  }

  lemma FullIsAccepted(list: seq<string>)
    requires IsList(list) && |ListBytes(list)| == 16
    ensures Address(Join(list, ':')) == Some(ListBytes(list))
  {
    StartsWithHex(list, "");
    assert Join(list, ':') + "" == Join(list, ':');
    ScanList(list, [], None);
    assert [] + ListBytes(list) == ListBytes(list);
  }

  lemma NothingLeft(rest: string)
    ensures Address("::" + rest) == Scan6(rest, "", [], Some(0))
  {
    assert ("::" + rest)[1..] == ":" + rest && (":" + rest)[1..] == rest;
  }

  /** Up to the gap. */
  lemma LeftIsRead(left: seq<string>, rest: string)
    requires AllGroups(left) && |left| <= 8
    ensures IsList(left) && |ListBytes(left)| <= 16
    ensures Address(Join(left, ':') + ("::" + rest)) == Scan6(rest, "", ListBytes(left), Some(|ListBytes(left)|))
  {
    GroupsAreLists(left);
    if left == [] {
      assert Join(left, ':') + ("::" + rest) == "::" + rest;
      NothingLeft(rest);
    } else {
      StartsWithHex(left, "::" + rest);
      ScanLeft(left, rest, []);
      assert [] + ListBytes(left) == ListBytes(left);
    }
  }

  /** Every text of the grammar is accepted with its bytes. */
  lemma GrammarIsAccepted(f: Form)
    requires IsForm(f)
    ensures Address(Text(f)) == Some(FormBytes(f))
  {
    match f
    case Full(list) => FullIsAccepted(list);
    case Gap(left, right) =>
      GroupsAreLists(left);
      LeftIsRead(left, Join(right, ':'));
      var l := ListBytes(left);
      ScanList(right, l, Some(|l|));
      CloseGap(l, ListBytes(right));
  }

  /** A gap between seven groups and one, which would stand for no zeros at all, is refused. */
  lemma EmptyGapIsRefused(left: seq<string>, t: string)
    requires AllGroups(left) && |left| == 7 && IsGroup(t)
    ensures Address(Join(left, ':') + ("::" + t)) == None
  {
    GroupsAreLists(left);
    LeftIsRead(left, t);
    ScanLastGroup(t, ListBytes(left), Some(14));
  }

  /** One more one-digit group in front. */
  lemma PrependDigit(d: char, rest: seq<string>, text: string)
    requires IsHex(d) && rest != [] && AllGroups(rest) && Join(rest, ':') == text
    ensures AllGroups([[d]] + rest) && Join([[d]] + rest, ':') == [d, ':'] + text
  {
    JoinCons([d], rest, ':');
  }

  lemma SevenDigits() returns (left: seq<string>)
    ensures AllGroups(left) && |left| == 7 && Join(left, ':') == "1:2:3:4:5:6:7"
  {
    left := ["7"];
    PrependDigit('6', left, "7");
    left := ["6"] + left;
    PrependDigit('5', left, "6:7");
    left := ["5"] + left;
    PrependDigit('4', left, "5:6:7");
    left := ["4"] + left;
    PrependDigit('3', left, "4:5:6:7");
    left := ["3"] + left;
    PrependDigit('2', left, "3:4:5:6:7");
    left := ["2"] + left;
    PrependDigit('1', left, "2:3:4:5:6:7");
    left := ["1"] + left;
  }

  lemma EmptyGapExample()
    ensures Address("1:2:3:4:5:6:7::8") == None
  {
    var left := SevenDigits();
    EmptyGapIsRefused(left, "8");
    assert "1:2:3:4:5:6:7" + ("::" + "8") == "1:2:3:4:5:6:7::8";
  }

  // ----- everything accepted is in the grammar

  lemma TailOf(cur: string, s: string)
    requires |cur| <= 4 && Hexes(cur) && s != "" && s[0] == '.' && DottedQuad(cur + s).Some?
    ensures IsTail(cur + s) && ListBytes([cur + s]) == DottedQuad(cur + s).value
    ensures |ListBytes([cur + s])| == 4
  {
    var t := cur + s;
    var tokens := GrammarOfQuad(t);
    assert tokens == [tokens[0]] + tokens[1..];
    JoinCons(tokens[0], tokens[1..], '.');
    var k := |tokens[0]|;
    assert t[k] == '.' && t[..k] == tokens[0];
    assert t[|cur|] == '.' && t[..|cur|] == cur;
    assert forall i :: 0 <= i < |cur| ==> IsHex(t[i]);
    assert forall i :: 0 <= i < k ==> IsDigit(t[i]);
    assert k == |cur|;
    QuadHasFour(t);
    assert !IsHex(t[k]);
    ListOne(t);
  }

  /** The scan of `cur + s` read the list `ts`. */
  ghost predicate ReadsList(ts: seq<string>, s: string, cur: string, out: seq<byte>, colon: Option<nat>)
    requires |cur| <= 4 && Hexes(cur) && |out| <= 16 && (colon.Some? ==> colon.value <= |out|)
  {
    && cur + s == Join(ts, ':') && IsList(ts) && |out| + |ListBytes(ts)| <= 16
    && Scan6(s, cur, out, colon) == Close("", out + ListBytes(ts), colon)
  }

  lemma ReadsEnd(cur: string, out: seq<byte>, colon: Option<nat>)
    requires |cur| <= 4 && Hexes(cur) && |out| <= 16 && (colon.Some? ==> colon.value <= |out|)
    requires Close(cur, out, colon).Some?
    ensures ReadsList(if cur == "" then [] else [cur], "", cur, out, colon)
  {
    assert cur + "" == cur;
    if cur == "" {
      assert out + ListBytes([]) == out;
    } else {
      ListOne(cur);
    }
  }

  lemma ReadsTail(s: string, cur: string, out: seq<byte>, colon: Option<nat>)
    requires |cur| <= 4 && Hexes(cur) && |out| + 4 <= 16 && (colon.Some? ==> colon.value <= |out|)
    requires s != "" && s[0] == '.' && DottedQuad(cur + s).Some?
    ensures ReadsList([cur + s], s, cur, out, colon)
  {
    TailOf(cur, s);
    ListOne(cur + s);
  }

  lemma ReadsGroup(ts: seq<string>, s: string, cur: string, out: seq<byte>, colon: Option<nat>)
    requires 1 <= |cur| <= 4 && Hexes(cur) && |out| + 2 <= 16 && (colon.Some? ==> colon.value <= |out|)
    requires |s| > 1 && s[0] == ':' && ReadsList(ts, s[1..], "", out + GroupBytes(cur), colon)
    ensures ReadsList([cur] + ts, s, cur, out, colon)
  {
    assert "" + s[1..] == s[1..];
    assert s == ":" + s[1..];
    JoinCons(cur, ts, ':');
    ListCons(cur, ts);
    Associate(out, GroupBytes(cur), ListBytes(ts));
  }

  /** After the gap only a list can follow. */
  lemma {:induction false} SoundRight(s: string, cur: string, out: seq<byte>, colon: Option<nat>)
      returns (ts: seq<string>)
    requires |cur| <= 4 && Hexes(cur) && |out| <= 16 && colon.Some? && colon.value <= |out|
    requires Scan6(s, cur, out, colon).Some?
    ensures ReadsList(ts, s, cur, out, colon)
    decreases |s|
  {
    if s == "" {
      ReadsEnd(cur, out, colon);
      ts := if cur == "" then [] else [cur];
    } else if IsHex(s[0]) {
      Associate(cur, [s[0]], s[1..]);
      assert [s[0]] + s[1..] == s;
      ts := SoundRight(s[1..], cur + [s[0]], out, colon);
    } else if s[0] == ':' {
      ts := SoundRight(s[1..], "", out + GroupBytes(cur), colon);
      ReadsGroup(ts, s, cur, out, colon);
      ts := [cur] + ts;
    } else {
      ReadsTail(s, cur, out, colon);
      ts := [cur + s];
    }
  }

  /** The bytes a scan starting with `out` produces for the form it read. */
  ghost predicate Produces(f: Form, out: seq<byte>, result: Option<seq<byte>>) {
    match f
    case Full(list) =>
      IsList(list) && |out| + |ListBytes(list)| <= 16 && result == Close("", out + ListBytes(list), None)
    case Gap(left, right) =>
      && AllGroups(left) && IsList(left) && IsList(right)
      && |out| + |ListBytes(left)| + |ListBytes(right)| <= 16
      && result == Close("", (out + ListBytes(left)) + ListBytes(right), Some(|out| + |ListBytes(left)|))
  }

  function Prepend(t: string, f: Form): Form {
    match f
    case Full(list) => Full([t] + list)
    case Gap(left, right) => Gap([t] + left, right)
  }

  lemma ProducesGroup(t: string, f: Form, out: seq<byte>, result: Option<seq<byte>>)
    requires IsGroup(t) && |out| + 2 <= 16 && Produces(f, out + GroupBytes(t), result)
    ensures Produces(Prepend(t, f), out, result)
  {
    match f
    case Full(list) =>
      ListCons(t, list);
      Associate(out, GroupBytes(t), ListBytes(list));
    case Gap(left, right) =>
      ListCons(t, left);
      Associate(out, GroupBytes(t), ListBytes(left));
  }

  lemma TextGroup(t: string, f: Form)
    requires Text(f) != "" && Text(f)[0] != ':'
    ensures Text(Prepend(t, f)) == t + (":" + Text(f))
  {
    match f
    case Full(list) => JoinCons(t, list, ':');
    case Gap(left, right) =>
      assert "" + ("::" + Join(right, ':')) == "::" + Join(right, ':');
      JoinCons(t, left, ':');
      Associate(t, ":" + Join(left, ':'), "::" + Join(right, ':'));
      Associate(":", Join(left, ':'), "::" + Join(right, ':'));
  }

  /** The gap opens right after a group. */
  lemma SoundGap(s: string, cur: string, out: seq<byte>) returns (f: Form)
    requires IsGroup(cur) && |out| + 2 <= 16 && |s| > 1 && s[0] == ':' && s[1] == ':' && Scan6(s, cur, out, None).Some?
    ensures cur + s == Text(f) && Produces(f, out, Scan6(s, cur, out, None))
  {
    var out' := out + GroupBytes(cur);
    var right := SoundRight(s[1..][1..], "", out', Some(|out'|));
    f := Gap([cur], right);
    ListOne(cur);
    assert s == "::" + s[1..][1..] && "" + s[1..][1..] == s[1..][1..];
  }

  /** The scan of `cur + s` read the form `f`. */
  ghost predicate ReadsForm(f: Form, s: string, cur: string, out: seq<byte>)
    requires |cur| <= 4 && Hexes(cur) && |out| <= 16
  {
    cur + s == Text(f) && Produces(f, out, Scan6(s, cur, out, None))
  }

  lemma ReadsFull(ts: seq<string>, s: string, cur: string, out: seq<byte>)
    requires |cur| <= 4 && Hexes(cur) && |out| <= 16 && ReadsList(ts, s, cur, out, None)
    ensures ReadsForm(Full(ts), s, cur, out)
  {
  }

  lemma ReadsDigit(f: Form, s: string, cur: string, out: seq<byte>)
    requires |cur| < 4 && Hexes(cur) && |out| <= 16 && s != "" && IsHex(s[0])
    requires ReadsForm(f, s[1..], cur + [s[0]], out)
    ensures ReadsForm(f, s, cur, out)
  {
    Associate(cur, [s[0]], s[1..]);
    assert [s[0]] + s[1..] == s;
  }

  lemma ReadsPrepend(f: Form, s: string, cur: string, out: seq<byte>)
    requires IsGroup(cur) && |out| + 2 <= 16 && |s| > 1 && s[0] == ':' && s[1] != ':'
    requires ReadsForm(f, s[1..], "", out + GroupBytes(cur))
    ensures ReadsForm(Prepend(cur, f), s, cur, out)
  {
    assert "" + s[1..] == s[1..] && s == ":" + s[1..];
    ProducesGroup(cur, f, out, Scan6(s, cur, out, None));
    TextGroup(cur, f);
  }

  /** Before the gap: a list, or groups, the gap and a list. */
  lemma {:induction false} SoundLeft(s: string, cur: string, out: seq<byte>) returns (f: Form)
    requires |cur| <= 4 && Hexes(cur) && |out| <= 16 && Scan6(s, cur, out, None).Some?
    requires cur != "" || s == "" || s[0] != ':'
    ensures ReadsForm(f, s, cur, out)
    decreases |s|
  {
    if s == "" {
      ReadsEnd(cur, out, None);
      f := Full(if cur == "" then [] else [cur]);
      ReadsFull(f.list, s, cur, out);
    } else if IsHex(s[0]) {
      f := SoundLeft(s[1..], cur + [s[0]], out);
      ReadsDigit(f, s, cur, out);
    } else if s[0] == '.' {
      ReadsTail(s, cur, out, None);
      f := Full([cur + s]);
      ReadsFull(f.list, s, cur, out);
    } else if s[1] == ':' {
      f := SoundGap(s, cur, out);
    } else {
      f := SoundLeft(s[1..], "", out + GroupBytes(cur));
      ReadsPrepend(f, s, cur, out);
      f := Prepend(cur, f);
    }
  }

  lemma ProducedIsForm(f: Form, result: Option<seq<byte>>)
    requires Produces(f, [], result) && result.Some?
    ensures IsForm(f) && result == Some(FormBytes(f))
  {
    match f
    case Full(list) => assert [] + ListBytes(list) == ListBytes(list);
    case Gap(left, right) =>
      assert [] + ListBytes(left) == ListBytes(left);
      CloseGap(ListBytes(left), ListBytes(right));
  }

  lemma AcceptedIsGrammar(s: string) returns (f: Form)
    requires Address(s).Some?
    ensures IsForm(f) && Text(f) == s && Address(s) == Some(FormBytes(f))
  {
    if s != "" && s[0] == ':' {
      var rest := s[1..][1..];
      var right := SoundRight(rest, "", [], Some(0));
      f := Gap([], right);
      assert s == "::" + rest && "" + rest == rest;
      assert Text(f) == "::" + Join(right, ':');
      assert ([] + ListBytes([])) + ListBytes(right) == [] + ListBytes(right);
    } else {
      f := SoundLeft(s, "", []);
      assert "" + s == s;
    }
    ProducedIsForm(f, Address(s));
  }

  /** The parser accepts exactly the grammar, and its result is what the text denotes. */
  lemma AddressIsGrammar(s: string, b: seq<byte>)
    ensures Address(s) == Some(b) <==> exists f :: IsForm(f) && Text(f) == s && FormBytes(f) == b
  {
    if Address(s) == Some(b) {
      var f := AcceptedIsGrammar(s);
    }
    forall f | IsForm(f) && Text(f) == s && FormBytes(f) == b ensures Address(s) == Some(b) {
      GrammarIsAccepted(f);
    }
  }
}
