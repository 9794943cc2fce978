/** Dotted-quad parsing, as written and as a grammar. */
module Inet4 {
  import opened Basics

  predicate IsDigit(c: char) { '0' <= c <= '9' }

  function Digit(c: char): (d: nat)
    requires IsDigit(c)
    ensures d < 10
  {
    c as int - '0' as int
  }

  predicate Digits(s: string) { forall i :: 0 <= i < |s| ==> IsDigit(s[i]) }

  /** The number written by `v` followed by the digits of `s`. */
  function Extend(v: nat, s: string): nat
    requires Digits(s)
    decreases |s|
  {
    if s == "" then v else Extend(10 * v + Digit(s[0]), s[1..])
  }

  /** Tokens joined by a separator. */
  function Join(tokens: seq<string>, sep: char): string {
    if tokens == [] then ""
    else if |tokens| == 1 then tokens[0]
    else tokens[0] + [sep] + Join(tokens[1..], sep)
  }

  // ----- the grammar: four octets joined by dots

  predicate IsOctet(t: string) { t != "" && Digits(t) && Extend(0, t) <= 255 }

  predicate AllOctets(tokens: seq<string>) { forall i :: 0 <= i < |tokens| ==> IsOctet(tokens[i]) }

  function Values(tokens: seq<string>): (v: seq<byte>)
    requires AllOctets(tokens)
    ensures |v| == |tokens| && forall i :: 0 <= i < |v| ==> v[i] == Extend(0, tokens[i])
  {
    seq(|tokens|, i requires 0 <= i < |tokens| => Extend(0, tokens[i]))
  }

  lemma ValuesCons(t: string, rest: seq<string>)
    requires IsOctet(t) && AllOctets(rest)
    ensures AllOctets([t] + rest) && Values([t] + rest) == [Extend(0, t)] + Values(rest)
  {
  }

  lemma JoinCons(t: string, rest: seq<string>, sep: char)
    requires rest != []
    ensures Join([t] + rest, sep) == t + ([sep] + Join(rest, sep))
  {
    assert ([t] + rest)[1..] == rest;
  }

  // ----- the scanner, step by step

  /** Scans the rest `s` with `v` read so far of the current octet. */
  function Scan(s: string, v: nat, saw: bool, done: seq<byte>): Option<seq<byte>>
    requires v <= 255
    decreases |s|
  {
    if s == "" then (if saw && |done| == 3 then Some(done + [v]) else None)
    else if IsDigit(s[0]) then
      (if 10 * v + Digit(s[0]) > 255 then None else Scan(s[1..], 10 * v + Digit(s[0]), true, done))
    else if s[0] == '.' && saw then
      (if |done| >= 3 then None else Scan(s[1..], 0, false, done + [v]))
    else None
  }

  function DottedQuad(s: string): Option<seq<byte>> { Scan(s, 0, false, []) }

  lemma {:induction false} ExtendGrows(v: nat, s: string)
    requires Digits(s)
    ensures Extend(v, s) >= v
    decreases |s|
  {
    if s != "" {
      ExtendGrows(10 * v + Digit(s[0]), s[1..]);
    }
  }

  /** Scanning the digits of an octet. */
  lemma {:induction false} ScanDigits(a: string, rest: string, v: nat, saw: bool, done: seq<byte>)
    requires Digits(a) && v <= 255 && Extend(v, a) <= 255
    ensures Scan(a + rest, v, saw, done) == Scan(rest, Extend(v, a), saw || a != "", done)
    decreases |a|
  {
    if a == "" {
      assert a + rest == rest;
    } else {
      var v' := 10 * v + Digit(a[0]);
      ExtendGrows(v', a[1..]);
      assert (a + rest)[0] == a[0] && (a + rest)[1..] == a[1..] + rest;
      ScanDigits(a[1..], rest, v', true, done);
    }
  }

  lemma ScanLast(t: string, done: seq<byte>)
    requires IsOctet(t) && |done| == 3
    ensures Scan(t, 0, false, done) == Some(done + [Extend(0, t)])
  {
    assert t == t + "";
    ScanDigits(t, "", 0, false, done);
  }

  lemma ScanOctet(t: string, rest: string, done: seq<byte>)
    requires IsOctet(t) && |done| < 3
    ensures Scan(t + ("." + rest), 0, false, done) == Scan(rest, 0, false, done + [Extend(0, t)])
  {
    ScanDigits(t, "." + rest, 0, false, done);
    assert ("." + rest)[1..] == rest;
  }

  /** Every text of the grammar is accepted with its values. */
  lemma {:induction false} ScanComplete(tokens: seq<string>, done: seq<byte>)
    requires tokens != [] && AllOctets(tokens) && |done| + |tokens| == 4
    ensures Scan(Join(tokens, '.'), 0, false, done) == Some(done + Values(tokens))
    decreases |tokens|
  {
    var t, rest := tokens[0], tokens[1..];
    var v: byte := Extend(0, t);
    assert tokens == [t] + rest;
    ValuesCons(t, rest);
    Associate(done, [v], Values(rest));
    if rest == [] {
      ScanLast(t, done);
      assert (done + [v]) + Values(rest) == done + [v];
    } else {
      JoinCons(t, rest, '.');
      ScanOctet(t, Join(rest, '.'), done);
      ScanComplete(rest, done + [v]);
    }
  }

  /** The rest `s` is the end `a` of the current octet and further octets `tokens`. */
  ghost predicate Parses(s: string, v: nat, saw: bool, done: seq<byte>, a: string, tokens: seq<string>)
    requires v <= 255
  {
    && s == (if tokens == [] then a else a + ("." + Join(tokens, '.')))
    && Digits(a) && (saw || a != "") && Extend(v, a) <= 255 && AllOctets(tokens)
    && |done| + 1 + |tokens| == 4
    && Scan(s, v, saw, done) == Some(done + ([Extend(v, a)] + Values(tokens)))
  }

  lemma ParsesDigit(s: string, v: nat, saw: bool, done: seq<byte>, a: string, tokens: seq<string>)
    requires s != "" && IsDigit(s[0]) && v <= 255 && 10 * v + Digit(s[0]) <= 255
    requires Parses(s[1..], 10 * v + Digit(s[0]), true, done, a, tokens)
    ensures Parses(s, v, saw, done, [s[0]] + a, tokens)
  {
    var d := [s[0]] + a;
    assert d[1..] == a && d[0] == s[0];
    assert s == [s[0]] + s[1..];
    if tokens != [] {
      Associate([s[0]], a, "." + Join(tokens, '.'));
    }
    assert Digits(d) && Extend(v, d) == Extend(10 * v + Digit(s[0]), a);
  }

  lemma ParsesDot(s: string, v: nat, done: seq<byte>, a: string, tokens: seq<string>)
    requires s != "" && s[0] == '.' && v <= 255 && |done| < 3
    requires Parses(s[1..], 0, false, done + [v], a, tokens)
    ensures Parses(s, v, true, done, "", [a] + tokens)
  {
    assert IsOctet(a);
    ValuesCons(a, tokens);
    assert s == "." + s[1..];
    if tokens != [] {
      JoinCons(a, tokens, '.');
    }
    Associate(done, [v], Values([a] + tokens));
  }

  /** Everything accepted is a text of the grammar. */
  lemma {:induction false} ScanSound(s: string, v: nat, saw: bool, done: seq<byte>)
      returns (a: string, tokens: seq<string>)
    requires v <= 255 && |done| <= 3 && Scan(s, v, saw, done).Some?
    ensures Parses(s, v, saw, done, a, tokens)
    decreases |s|
  {
    if s == "" {
      a, tokens := "", [];
      assert done + ([v] + Values([])) == done + [v];
    } else if IsDigit(s[0]) {
      a, tokens := ScanSound(s[1..], 10 * v + Digit(s[0]), true, done);
      ParsesDigit(s, v, saw, done, a, tokens);
      a := [s[0]] + a;
    } else {
      a, tokens := ScanSound(s[1..], 0, false, done + [v]);
      ParsesDot(s, v, done, a, tokens);
      a, tokens := "", [a] + tokens;
    }
  }

  /** The dotted-quad parser accepts exactly four octets joined by dots. */
  lemma QuadIsGrammar(s: string, tokens: seq<string>)
    requires |tokens| == 4 && AllOctets(tokens) && s == Join(tokens, '.')
    ensures DottedQuad(s) == Some(Values(tokens))
  {
    ScanComplete(tokens, []);
    assert [] + Values(tokens) == Values(tokens);
  }

  lemma GrammarOfQuad(s: string) returns (tokens: seq<string>)
    requires DottedQuad(s).Some?
    ensures |tokens| == 4 && AllOctets(tokens) && s == Join(tokens, '.') && DottedQuad(s) == Some(Values(tokens))
  {
    var a, ts := ScanSound(s, 0, false, []);
    tokens := [a] + ts;
    assert IsOctet(a);
    ValuesCons(a, ts);
    JoinCons(a, ts, '.');
    assert [] + ([Extend(0, a)] + Values(ts)) == Values(tokens);
  }

  // ----- the code

  /** The loop of inet_pton4: `tmp[tp]` is the octet being read. */
  method ParseQuad(src: string) returns (ok: bool, dst: seq<byte>)
    ensures DottedQuad(src) == if ok then Some(dst) else None
  {
    var tmp := new byte[4](_ => 0);
    var saw, octets, tp := false, 0, 0;
    dst := [];
    ok := false;
    for i := 0 to |src|
      invariant 0 <= tp <= 3 && octets == tp + (if saw then 1 else 0)
      invariant DottedQuad(src) == Scan(src[i..], tmp[tp] as int, saw, tmp[..tp])
      invariant dst == [] && !ok
    {
      assert src[i..][0] == src[i] && src[i..][1..] == src[i + 1..];
      var ch := src[i];
      if IsDigit(ch) {
        var new_ := tmp[tp] as int * 10 + Digit(ch);
        if new_ > 255 {
          return;
        }
        if !saw {
          octets := octets + 1;
          if octets > 4 {
            assert false;
            return;
          }
          saw := true;
        }
        tmp[tp] := new_;
      } else if ch == '.' && saw {
        if octets == 4 {
          return;
        }
        assert tmp[..tp + 1] == tmp[..tp] + [tmp[tp]];
        tp := tp + 1;
        tmp[tp] := 0;
        saw := false;
      } else {
        return;
      }
    }
    assert src[|src|..] == "";
    if octets < 4 {
      return;
    }
    ok, dst := true, tmp[..];
    assert tmp[..] == tmp[..3] + [tmp[3]];
  }
}
