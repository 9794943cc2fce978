/** The firewall pipeline's rule management, front end and back end. */
module FirewallCode {
  import opened Basics
  import opened RuleTable
  import opened RuleBatch
  import opened RuleList
  import opened FirewallKey
  import opened FirewallMirror
  import opened FirewallBulk
  import opened RuleListing

  /** The back end's table: rule positions, of which 0 is not used. */
  class AclTable<K(==,!new)> {
    const rules: array<Option<Rule<K>>>

    constructor (n: nat)
      requires n > 0
      ensures fresh(rules) && rules.Length == n && forall i :: 0 <= i < n ==> rules[i] == None
    {
      rules := new Option<Rule<K>>[n](_ => None);
    }

    ghost predicate Ready() { rules.Length > 0 }

    /** The position of a key, or else the first free one. */
    method Search(key: K) returns (pos: Option<nat>, free: Option<nat>)
      requires Ready()
      ensures pos == Find(rules[..], key) && (pos.None? ==> free == Free(rules[..]))
    {
      pos, free := None, None;
      ghost var s := rules[..];
      for i := 1 to rules.Length
        invariant Find(s, key) == FindFrom(s, key, i)
        invariant Free(s) == if free.None? then FreeFrom(s, i) else free
      {
        if rules[i].None? {
          if free.None? {
            free := Some(i);
          }
        } else if rules[i].value.key == key {
          pos := Some(i);
          return;
        }
      }
    }

    method Add(r: Rule<K>) returns (status: int, found: bool)
      requires Ready()
      modifies rules
      ensures Outcome(rules[..], status, [found]) == EntryAdd(old(rules[..]), r)
    {
      if r.priority > MAX_PRIORITY {
        return EINVAL, false;
      }
      var pos, free := Search(r.key);
      if pos.Some? {
        rules[pos.value] := Some(rules[pos.value].value.(port := r.port));
        return 0, true;
      }
      if free.None? {
        return ENOSPC, false;
      }
      rules[free.value] := Some(r);
      if r.priority < 0 {
        rules[free.value] := None;
        assert rules[..] == old(rules[..]);
        return EINVAL, false;
      }
      return 0, false;
    }

    method Delete(key: K) returns (status: int, found: bool)
      requires Ready()
      modifies rules
      ensures Outcome(rules[..], status, [found]) == EntryDelete(old(rules[..]), key)
    {
      var pos, _ := Search(key);
      if pos.None? {
        return 0, false;
      }
      rules[pos.value] := None;
      return 0, true;
    }

    /** Places the requests one by one until room runs out. */
    method Fill(rs: seq<Rule<K>>) returns (pos: seq<nat>, full: bool)
      requires Ready()
      modifies rules
      ensures Filled(rules[..], pos, full) == FillAll(old(rules[..]), rs)
    {
      pos, full := [], false;
      ghost var s := rules[..];
      for i := 0 to |rs|
        invariant Filled(rules[..], pos, full) == FillAll(s, rs[..i]) && !full
      {
        assert rs[..i + 1][..i] == rs[..i];
        var at, free := Search(rs[i].key);
        if at.Some? {
          rules[at.value] := Some(rules[at.value].value.(port := rs[i].port));
          pos := pos + [0];
        } else if free.Some? {
          rules[free.value] := Some(rs[i]);
          pos := pos + [free.value];
        } else {
          full := true;
          FullStays(s, rs, i + 1);
          return;
        }
      }
      assert rs[..|rs|] == rs;
    }

    method Rollback(pos: seq<nat>)
      requires Ready() && forall i :: 0 <= i < |pos| ==> pos[i] < rules.Length
      modifies rules
      ensures rules[..] == Undo(old(rules[..]), pos)
    {
      for i := 0 to |pos|
        invariant rules[..] == Undo(old(rules[..]), pos[..i])
      {
        if pos[i] != 0 {
          rules[pos[i]] := None;
        }
      }
      assert pos[..|pos|] == pos;
    }

    /** rte_table_acl_entry_add_bulk; `found` tells, per key, whether it was there. */
    method AddBulk(rs: seq<Rule<K>>) returns (status: int, found: seq<bool>)
      requires Ready()
      modifies rules
      ensures Outcome(rules[..], status, found) == EntryAddBulk(old(rules[..]), rs)
    {
      if |rs| == 0 {
        return EINVAL, [];
      }
      for i := 0 to |rs|
        invariant forall k :: 0 <= k < i ==> rs[k].priority <= MAX_PRIORITY
      {
        if rs[i].priority > MAX_PRIORITY {
          return EINVAL, [];
        }
      }
      var pos, full := Fill(rs);
      if full {
        Rollback(pos);
        return ENOSPC, [];
      }
      var built := Build(pos, rs);
      if !built {
        Rollback(pos);
        return EINVAL, [];
      }
      CommitPorts(pos, rs);
      return 0, Flags(pos);
    }

    /** The last loop: every new rule gets the port of the request that placed it. */
    method CommitPorts(pos: seq<nat>, rs: seq<Rule<K>>)
      requires Ready() && |pos| == |rs| && forall i :: 0 <= i < |pos| ==> pos[i] < rules.Length
      modifies rules
      ensures rules[..] == Commit(old(rules[..]), pos, rs, |rs|)
    {
      for i := 0 to |rs|
        invariant rules[..] == Commit(old(rules[..]), pos, rs, i)
      {
        var p := pos[i];
        if p != 0 && rules[p].Some? {
          rules[p] := Some(rules[p].value.(port := rs[i].port));
        }
      }
    }

    /** The rebuild fails on a rule whose priority is out of range. */
    method Build(pos: seq<nat>, rs: seq<Rule<K>>) returns (ok: bool)
      requires |pos| == |rs|
      ensures ok == !Negative(pos, rs)
    {
      for i := 0 to |rs|
        invariant forall k :: 0 <= k < i ==> pos[k] == 0 || rs[k].priority >= 0
      {
        if pos[i] != 0 && rs[i].priority < 0 {
          return false;
        }
      }
      return true;
    }

    /** rte_table_acl_entry_delete_bulk. */
    method DeleteBulk(keys: seq<K>) returns (status: int, found: seq<bool>)
      requires Ready()
      modifies rules
      ensures Outcome(rules[..], status, found) == EntryDeleteBulk(old(rules[..]), keys)
    {
      if |keys| == 0 {
        return EINVAL, [];
      }
      found := [];
      ghost var s := rules[..];
      for i := 0 to |keys|
        invariant rules[..] == RemoveAll(s, keys[..i]) && found == FoundAll(s, keys[..i])
      {
        assert keys[..i + 1][..i] == keys[..i];
        var pos, _ := Search(keys[i]);
        if pos.Some? {
          rules[pos.value] := None;
        }
        found := found + [pos.Some?];
      }
      assert keys[..|keys|] == keys;
      status := 0;
    }
  }

  /** Every key is in normal form. */
  ghost predicate Normal(rs: Rules<Key>) { forall i :: 0 <= i < |rs| ==> Normalize(rs[i].key) == Some(rs[i].key) }

  /** Every priority is one the back end accepts, unless it is negative. */
  ghost predicate Capped(rs: Rules<Key>) { forall i :: 0 <= i < |rs| ==> rs[i].priority <= MAX_PRIORITY }

  /** The front end: its rule list and count, and the table behind it. */
  class Firewall {
    var rules: Rules<Key>
    var nRules: nat
    const nPortsOut: nat
    const table: AclTable<Key>

    ghost predicate ListValid()
      reads this
    {
      nRules == |rules| && Keyed(rules) && Normal(rules) && Capped(rules)
    }

    ghost predicate Valid()
      reads this, table.rules
    {
      ListValid() && table.Ready() && Unique(table.rules[..])
    }

    ghost function Sys(): System<Key>
      reads this, table.rules
    {
      System(rules, table.rules[..])
    }

    constructor (nPortsOut: nat, n: nat)
      requires n > 0
      ensures Valid() && Exact(Sys()) && fresh(table) && fresh(table.rules) && rules == []
    {
      this.nPortsOut := nPortsOut;
      table := new AclTable(n);
      rules, nRules := [], 0;
    }

    /** app_pipeline_firewall_ls. */
    method List() returns (out: Rules<Key>)
      requires Valid() && forall i :: 0 <= i < |rules| ==> rules[i].priority >= 0
      ensures IsListing(rules, out)
    {
      out := Ls(rules, nRules);
    }

    method RuleFind(key: Key) returns (r: Option<nat>)
      ensures r == IndexOf(rules, key)
    {
      for i := 0 to |rules|
        invariant IndexOf(rules, key) == Shift(IndexOf(rules[i..], key), i)
      {
        assert rules[i..][1..] == rules[i + 1..];
        if rules[i].key == key {
          return Some(i);
        }
      }
      return None;
    }

    /** app_pipeline_firewall_add_rule. */
    method AddRule(key: Key, priority: int32, port: nat) returns (status: int)
      requires Valid()
      modifies this, table.rules
      ensures Valid()
      ensures var norm := Normalize(key);
        if norm.None? || port >= nPortsOut then status == -1 && Sys() == old(Sys())
        else (Sys(), status) == FirewallMirror.AddRule(old(Sys()), Rule(norm.value, priority, port), true)
    {
      if port >= nPortsOut {
        return -1;
      }
      var norm := Normalize(key);
      if norm.None? {
        return -1;
      }
      NormalizeTwice(key);
      var r := Rule(norm.value, priority, port);
      var index := RuleFind(r.key);
      PutKeeps(rules, r);
      EntryAddLookup(table.rules[..], r, r.key);
      var answer, found := table.Add(r);
      if answer != 0 || (index.Some? && !found) || (index.None? && found) {
        return -1;
      }
      if index.Some? {
        rules := rules[index.value := r];
      } else {
        rules := rules + [r];
        nRules := nRules + 1;
      }
      return 0;
    }

    /** app_pipeline_firewall_delete_rule. */
    method DeleteRule(key: Key) returns (status: int)
      requires Valid()
      modifies this, table.rules
      ensures Valid()
      ensures var norm := Normalize(key);
        if norm.None? then status == -1 && Sys() == old(Sys())
        else (Sys(), status) == FirewallMirror.DeleteRule(old(Sys()), norm.value, true)
    {
      var norm := Normalize(key);
      if norm.None? {
        return -1;
      }
      var index := RuleFind(norm.value);
      if index.None? {
        return 0;
      }
      DropKeeps(rules, norm.value);
      RemoveAllLookup(table.rules[..], [norm.value]);
      assert [norm.value][..0] == [];
      var answer, found := table.Delete(norm.value);
      if answer != 0 || !found {
        return -1;
      }
      rules := rules[..index.value] + rules[index.value + 1..];
      nRules := nRules - 1;
      return 0;
    }

    /** The checks at the head of app_pipeline_firewall_add_bulk, and each key's rule if it has one. */
    method Screen(rs: Rules<Key>) returns (ok: bool, norm: Rules<Key>, index: seq<Option<nat>>)
      ensures ok == AllAcceptable(rs, nPortsOut)
      ensures ok ==> norm == NormalForm(rs) && |index| == |rs|
      ensures ok ==> forall i :: 0 <= i < |rs| ==> index[i] == IndexOf(rules, norm[i].key)
    {
      ok, norm, index := true, [], [];
      for i := 0 to |rs|
        invariant ok && AllAcceptable(rs[..i], nPortsOut) && norm == NormalForm(rs[..i])
        invariant |index| == i && forall k :: 0 <= k < i ==> index[k] == IndexOf(rules, norm[k].key)
      {
        assert rs[..i + 1][..i] == rs[..i];
        if rs[i].port >= nPortsOut || Normalize(rs[i].key).None? {
          assert !Acceptable(rs[i], nPortsOut);
          ok := false;
          return;
        }
        var r := rs[i].(key := Normalize(rs[i].key).value);
        var at := RuleFind(r.key);
        norm, index := norm + [r], index + [at];
      }
      assert rs[..|rs|] == rs;
    }

    /** app_pipeline_firewall_add_bulk. */
    method AddBulk(rs: Rules<Key>) returns (status: int)
      requires Valid()
      modifies this, table.rules
      ensures Valid()
      ensures if exists i :: 0 <= i < |rs| && (rs[i].port >= nPortsOut || Normalize(rs[i].key).None?)
              then status == -1 && Sys() == old(Sys())
              else (Sys(), status) == FirewallMirror.AddBulk(old(Sys()), NormalForm(rs), true)
    {
      var ok, norm, index := Screen(rs);
      assert ok <==> forall i :: 0 <= i < |rs| ==> Acceptable(rs[i], nPortsOut);
      if !ok || |rs| == 0 {
        return -1;
      }
      NormalFormIsNormal(rs);
      AddBulkUnique(table.rules[..], norm);
      TakenIffLands(table.rules[..], norm);
      var answer, found := table.AddBulk(norm);
      if answer != 0 {
        return -1;
      }
      var matched := Matches(norm, index, found);
      if !matched {
        return -1;
      }
      WriteRules(norm, index);
      return 0;
    }

    /** Whether the back end found exactly the keys that have a rule here. */
    method Matches(norm: Rules<Key>, index: seq<Option<nat>>, found: seq<bool>) returns (ok: bool)
      requires |index| == |norm| == |found|
      requires forall i :: 0 <= i < |norm| ==> index[i] == IndexOf(rules, norm[i].key)
      ensures ok == !Contradicted(rules, norm, found)
      ensures ok ==> forall i :: 0 <= i < |norm| ==> index[i].Some? == found[i]
    {
      for i := 0 to |norm|
        invariant forall k :: 0 <= k < i ==> index[k].Some? == found[k]
      {
        if index[i].Some? != found[i] {
          return false;
        }
      }
      return true;
    }

    /** The loop that writes the accepted rules into the list, each where its key was before the call. */
    method WriteRules(norm: Rules<Key>, index: seq<Option<nat>>)
      requires ListValid() && Normal(norm) && Capped(norm) && |index| == |norm|
      requires forall i :: 0 <= i < |norm| ==> index[i] == IndexOf(rules, norm[i].key)
      requires forall i :: 0 <= i < |norm| && index[i].None? ==> Unmentioned(norm[..i], norm[i].key)
      modifies this`rules, this`nRules
      ensures ListValid() && rules == PutAll(old(rules), norm)
    {
      for i := 0 to |norm|
        invariant ListValid() && rules == PutAll(old(rules), norm[..i])
      {
        assert norm[..i + 1][..i] == norm[..i];
        PutAllIndex(old(rules), norm[..i], norm[i].key);
        PutKeeps(rules, norm[i]);
        if index[i].Some? {
          rules := rules[index[i].value := norm[i]];
        } else {
          rules := rules + [norm[i]];
          nRules := nRules + 1;
        }
      }
      assert norm[..|norm|] == norm;
    }

    /** app_pipeline_firewall_delete_bulk; a key that the back end reports found must have a rule here. */
    method DeleteBulk(keys: seq<Key>) returns (status: int)
      requires Valid() && (AllWellFormed(keys) ==> Removable(Sys(), NormalKeys(keys)))
      modifies this, table.rules
      ensures Valid()
      ensures if !AllWellFormed(keys) then status == -1 && Sys() == old(Sys())
              else (Sys(), status) == FirewallMirror.DeleteBulk(old(Sys()), NormalKeys(keys), true)
    {
      for i := 0 to |keys|
        invariant AllWellFormed(keys[..i])
      {
        if Normalize(keys[i]).None? {
          return -1;
        }
      }
      assert keys[..|keys|] == keys;
      var norm := NormalKeys(keys);
      if |keys| == 0 {
        return -1;
      }
      RemoveAllLookup(table.rules[..], norm);
      AllFound(table.rules[..], norm);
      var _, found := table.DeleteBulk(norm);
      for i := 0 to |found|
        invariant forall k :: 0 <= k < i ==> found[k]
      {
        if !found[i] {
          return -1;
        }
      }
      RemoveRules(norm);
      return 0;
    }

    /** The loop that takes the deleted rules out of the list. */
    method RemoveRules(norm: seq<Key>)
      requires ListValid() && Once(norm) && forall i :: 0 <= i < |norm| ==> IndexOf(rules, norm[i]).Some?
      modifies this`rules, this`nRules
      ensures ListValid() && rules == DropAll(old(rules), norm)
    {
      for i := 0 to |norm|
        invariant ListValid() && rules == DropAll(old(rules), norm[..i])
      {
        assert norm[..i + 1][..i] == norm[..i];
        DropAllRules(old(rules), norm[..i]);
        assert RuleFor(rules, norm[i]) == RuleFor(old(rules), norm[i]);
        DropKeeps(rules, norm[i]);
        var at := RuleFind(norm[i]);
        rules := rules[..at.value] + rules[at.value + 1..];
        nRules := nRules - 1;
      }
      assert norm[..|norm|] == norm;
    }
  }

  predicate Acceptable(r: Rule<Key>, nPortsOut: nat) { r.port < nPortsOut && Normalize(r.key).Some? }

  predicate AllAcceptable(rs: Rules<Key>, nPortsOut: nat) { forall i :: 0 <= i < |rs| ==> Acceptable(rs[i], nPortsOut) }

  /** Every rule with its key in normal form. */
  function NormalForm(rs: Rules<Key>): (n: Rules<Key>)
    ensures |n| == |rs|
    ensures forall i :: 0 <= i < |rs| && Normalize(rs[i].key).Some? ==>
      n[i] == rs[i].(key := Normalize(rs[i].key).value)
  {
    seq(|rs|, i requires 0 <= i < |rs| =>
      if Normalize(rs[i].key).Some? then rs[i].(key := Normalize(rs[i].key).value) else rs[i])
  }

  lemma NormalFormIsNormal(rs: Rules<Key>)
    requires forall i :: 0 <= i < |rs| ==> Normalize(rs[i].key).Some?
    ensures Normal(NormalForm(rs))
  {
    forall i | 0 <= i < |rs| ensures Normalize(NormalForm(rs)[i].key) == Some(NormalForm(rs)[i].key) {
      NormalizeTwice(rs[i].key);
    }
  }

  predicate AllWellFormed(keys: seq<Key>) { forall i :: 0 <= i < |keys| ==> Normalize(keys[i]).Some? }

  function NormalKeys(keys: seq<Key>): (n: seq<Key>)
    requires AllWellFormed(keys)
    ensures |n| == |keys| && forall i :: 0 <= i < |keys| ==> n[i] == Normalize(keys[i]).value
  {
    seq(|keys|, i requires 0 <= i < |keys| => Normalize(keys[i]).value)
  }

  /** Writing a batch moves no rule that was there. */
  lemma {:induction false} PutAllIndex<K(!new)>(l: Rules<K>, rs: Rules<K>, k: K)
    requires Keyed(l) && (IndexOf(l, k).Some? || Unmentioned(rs, k))
    ensures Keyed(PutAll(l, rs)) && IndexOf(PutAll(l, rs), k) == IndexOf(l, k)
    decreases |rs|
  {
    if rs != [] {
      var n := |rs| - 1;
      PutAllIndex(l, rs[..n], k);
      PutKeeps(PutAll(l, rs[..n]), rs[n]);
      if k == rs[n].key {
        RuleAt(PutAll(l, rs), IndexOf(l, k).value);
      } else {
        PutIndex(PutAll(l, rs[..n]), rs[n], k);
      }
    }
  }

  function Shift(r: Option<nat>, i: nat): Option<nat> { match r case None => None case Some(j) => Some(i + j) }

  lemma {:induction false} FullStays<K(!new)>(s: Slots<K>, rs: seq<Rule<K>>, n: nat)
    requires s != [] && n <= |rs| && FillAll(s, rs[..n]).full
    ensures FillAll(s, rs) == FillAll(s, rs[..n])
    decreases |rs| - n
  {
    if n == |rs| {
      assert rs[..n] == rs;
    } else {
      assert rs[..n + 1][..n] == rs[..n];
      FullStays(s, rs, n + 1);
    }
  }
}
