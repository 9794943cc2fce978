/** The search on the packed table: words are stored, and taken apart at every step. */
module AclWordSearch {
  import opened Basics
  import opened AclFormat
  import opened AclTrie
  import opened AclPlan
  import opened AclGen
  import opened AclCompiler
  import opened AclMeaning
  import opened AclTraversal
  import opened AclMeets
  import opened AclSearchSteps
  import opened AclClassify
  import opened AclAnswer
  import opened AclWord
  import opened AclPacked

  /** The transitions that the search sees in the words. */
  function UnpackAll(words: seq<nat>): (table: seq<Transition>)
    ensures |table| == |words| && forall i :: 0 <= i < |words| ==> table[i] == Unpack(words[i])
  {
    seq(|words|, i requires 0 <= i < |words| => Unpack(words[i]))
  }

  function UnpackOption(w: Option<nat>): Option<Transition> {
    if w.None? then None else Some(Unpack(w.value))
  }

  /** Stepping from word to word is stepping over the transitions seen in them, whatever the words. */
  lemma {:induction false} RunSeesWords(words: seq<nat>, w: nat, s: seq<byte>)
    ensures Run(UnpackAll(words), Unpack(w), s) == UnpackOption(WordRun(words, w, s))
    decreases |s|
  {
    if s != [] && WordStep(words, w, s[0]).Some? {
      RunSeesWords(words, WordStep(words, w, s[0]).value, s[1..]);
    }
  }

  /** The packed table is seen as it was built if and only if all its addresses fit their 29 bits. */
  lemma SeenAsBuilt(table: seq<Transition>)
    ensures UnpackAll(PackAll(table)) == table <==> forall i :: 0 <= i < |table| ==> table[i].addr < ADDR_LIMIT
  {
    forall i | 0 <= i < |table| ensures UnpackAll(PackAll(table))[i] == table[i] <==> table[i].addr < ADDR_LIMIT {
      PackRoundTrip(table[i]);
    }
  }

  /** `seen` is the table wherever its addresses fit. */
  ghost predicate Resembles(table: seq<Transition>, seen: seq<Transition>) {
    |seen| == |table| && forall i :: 0 <= i < |table| && table[i].addr < ADDR_LIMIT ==> seen[i] == table[i]
  }

  lemma WordsResemble(table: seq<Transition>)
    ensures Resembles(table, UnpackAll(PackAll(table)))
  {
    forall i | 0 <= i < |table| && table[i].addr < ADDR_LIMIT ensures UnpackAll(PackAll(table))[i] == table[i] {
      PackRoundTrip(table[i]);
    }
  }

  lemma {:induction false} RunSeen(table: seq<Transition>, seen: seq<Transition>, t: Transition, s: seq<byte>)
    requires Resembles(table, seen) && FitsAlong(table, t, s)
    ensures Run(seen, t, s) == Run(table, t, s)
    decreases |s|
  {
    if s != [] && 0 <= StepAddr(t, s[0]) < |table| {
      RunSeen(table, seen, Step(table, t, s[0]), s[1..]);
    }
  }

  // ----- traversals

  /** What the search works on when it sees `seen` for the compiled table. */
  function SeenCtx(c: Compiled, seen: seq<Transition>, dataIndex: seq<seq<nat>>): Ctx {
    CtxOf(c, dataIndex).(table := seen)
  }

  lemma RootRunSeen(pool: Pool, roots: seq<nat>, c: Compiled, seen: seq<Transition>, t: nat, s: seq<byte>)
    requires WellFormed(pool, roots) && Faithful(pool, roots, c) && Fits(c) && Resembles(c.table, seen)
    requires t < |roots| && s != [] && ClearPath(pool, roots[t], s)
    ensures RunRoot(seen, c.rootIndex[t], s) == RunRoot(c.table, c.rootIndex[t], s)
  {
    assert FaithfulRoot(pool, c, roots[t], c.rootIndex[t]);
    assert RootReads(pool, c, roots[t], c.rootIndex[t], s[0]);
    TailFits(pool, roots, c, roots[t], s);
    RunSeen(c.table, seen, c.table[c.rootIndex[t] + s[0]], s[1..]);
  }

  lemma AtSeen(pool: Pool, roots: seq<nat>, c: Compiled, seen: seq<Transition>, dataIndex: seq<seq<nat>>,
               depth: seq<nat>, height: seq<nat>, t: nat, d: seq<byte>, k: nat)
    requires Given(pool, roots, c, dataIndex, depth, height) && Fits(c) && Resembles(c.table, seen)
    requires t < |roots| && InBounds(d, dataIndex[t]) && k <= StopBlock(pool, roots[t], d, dataIndex[t], 0)
    ensures At(SeenCtx(c, seen, dataIndex), d, t, k) == At(CtxOf(c, dataIndex), d, t, k)
  {
    ClearToStop(pool, roots, dataIndex, depth, height, t, d, k);
    RootRunSeen(pool, roots, c, seen, t, Stream(d, dataIndex[t], k));
  }

  /** One traversal of the table as it is seen gives the trie's own answer. */
  lemma SeenVerdict(pool: Pool, roots: seq<nat>, c: Compiled, seen: seq<Transition>, dataIndex: seq<seq<nat>>,
                    depth: seq<nat>, height: seq<nat>, t: nat, d: seq<byte>)
    requires Given(pool, roots, c, dataIndex, depth, height) && Fits(c) && Resembles(c.table, seen)
    requires t < |roots| && InBounds(d, dataIndex[t])
    ensures Finishes(SeenCtx(c, seen, dataIndex), d, t)
    ensures Verdict(SeenCtx(c, seen, dataIndex), d, t) == Classify(pool, roots[t], Input(d, dataIndex[t]))
  {
    var ctx, ctx' := CtxOf(c, dataIndex), SeenCtx(c, seen, dataIndex);
    VerdictIsClassify(pool, roots, c, dataIndex, depth, height, t, d);
    DepthIsStop(pool, roots, c, dataIndex, depth, height, t, d);
    forall k | 0 <= k <= Depth(ctx, d, t, 0) ensures At(ctx', d, t, k) == At(ctx, d, t, k) {
      AtSeen(pool, roots, c, seen, dataIndex, depth, height, t, d, k);
    }
    SameTraversal(ctx, ctx', d, t);
  }

  /** A traversal that goes the same way to its end finishes with the same verdict. */
  lemma SameTraversal(ctx: Ctx, ctx': Ctx, d: seq<byte>, t: nat)
    requires Finishes(ctx, d, t) && ctx' == ctx.(table := ctx'.table)
    requires forall k :: 0 <= k <= Depth(ctx, d, t, 0) ==> At(ctx', d, t, k) == At(ctx, d, t, k)
    ensures Finishes(ctx', d, t) && Verdict(ctx', d, t) == Verdict(ctx, d, t)
  {
    var stop := Depth(ctx, d, t, 0);
    forall k | 0 <= k <= stop ensures At(ctx', d, t, k).Some? && (At(ctx', d, t, k).value.kind.Match? <==> k == stop) {
      assert At(ctx, d, t, k).Some?;
    }
    DepthUnique(ctx', d, t, stop);
  }

  lemma LowAreaSeen(table: seq<Transition>, seen: seq<Transition>)
    requires LowArea(table) && Resembles(table, seen)
    ensures LowArea(seen)
  {
  }

  /** The packed table with readable packets satisfies everything the search asks for. */
  lemma PackedIsSearchable(pool: Pool, roots: seq<nat>, c: Compiled, seen: seq<Transition>, dataIndex: seq<seq<nat>>,
                           depth: seq<nat>, height: seq<nat>, data: seq<seq<byte>>)
    requires Given(pool, roots, c, dataIndex, depth, height) && Fits(c) && Resembles(c.table, seen)
    requires Readable(roots, dataIndex, data) && |roots| > 0
    ensures Searchable(SeenCtx(c, seen, dataIndex), data)
    ensures forall p :: 0 <= p < |data| ==>
      WorkOf(SeenCtx(c, seen, dataIndex), data).verdicts[p] == TrieAnswers(pool, roots, dataIndex, data[p])
  {
    var ctx := SeenCtx(c, seen, dataIndex);
    LowAreaSeen(c.table, seen);
    forall p, t | 0 <= p < |data| && 0 <= t < |roots|
      ensures Finishes(ctx, data[p], t)
      ensures Verdict(ctx, data[p], t) == Classify(pool, roots[t], Input(data[p], dataIndex[t]))
    {
      SeenVerdict(pool, roots, c, seen, dataIndex, depth, height, t, data[p]);
    }
  }

  /** The whole search, on what it sees of a compiled table. */
  method SearchSeen(c: Compiled, seen: seq<Transition>, dataIndex: seq<seq<nat>>, data: seq<seq<byte>>, slots: nat,
                    groups: seq<seq<nat>>, ghost pool: Pool, ghost roots: seq<nat>, ghost depth: seq<nat>,
                    ghost height: seq<nat>)
    returns (r: seq<nat>)
    requires Given(pool, roots, c, dataIndex, depth, height) && Fits(c) && Resembles(c.table, seen)
    requires Readable(roots, dataIndex, data) && |roots| > 0 && slots > 0 && Groups(groups, slots)
    ensures |r| == |data|
    ensures forall p :: 0 <= p < |data| ==> TopResult(TrieAnswers(pool, roots, dataIndex, data[p]), r[p])
  {
    PackedIsSearchable(pool, roots, c, seen, dataIndex, depth, height, data);
    var results := new nat[|data|];
    var s := new Searcher(SeenCtx(c, seen, dataIndex), data, slots, results);
    s.Search(groups);
    r := results[..];
    assert AllTop(s.w, r);
  }

  /** Packs the table and takes the words apart again. */
  method ThroughWords(table: seq<Transition>) returns (seen: seq<Transition>)
    ensures Resembles(table, seen)
  {
    var words := PackAll(table);
    WordsResemble(table);
    seen := UnpackAll(words);
  }

  /** Compiling under a limit of up to 4 GiB. */
  method GenerateFitting(pool: Pool, roots: seq<nat>, dataIndexSize: nat, maxSize: nat)
    returns (r: Outcome, ghost plan: Plan)
    requires WellFormed(pool, roots) && maxSize <= 0x1_0000_0000
    ensures Ready(pool, roots, plan) && (r.TooBig? <==> TotalSize(plan, dataIndexSize) > maxSize)
    ensures r.Built? ==> Faithful(pool, roots, r.compiled) && Fits(r.compiled)
  {
    r, plan := Generate(pool, roots, dataIndexSize, maxSize);
    if r.Built? {
      SizeLimitKeepsAddresses(pool, roots, plan, r.compiled, dataIndexSize, maxSize);
    }
  }

  /** Tries in, results out, through the packed table.  A size limit of up to 4 GiB is enough for
      every packet to get a best classification. */
  method BuildPackAndClassify(pool: Pool, roots: seq<nat>, dataIndex: seq<seq<nat>>, data: seq<seq<byte>>,
                              dataIndexSize: nat, maxSize: nat, slots: nat, groups: seq<seq<nat>>,
                              ghost depth: seq<nat>, ghost height: seq<nat>)
    returns (r: Option<seq<nat>>, ghost plan: Plan)
    requires WellFormed(pool, roots) && Fitting(pool, roots, dataIndex, depth, height)
    requires Readable(roots, dataIndex, data) && |roots| > 0 && slots > 0 && Groups(groups, slots)
    requires maxSize <= 0x1_0000_0000
    ensures Ready(pool, roots, plan) && (r.None? <==> TotalSize(plan, dataIndexSize) > maxSize)
    ensures r.Some? ==> |r.value| == |data|
    ensures r.Some? ==> forall p :: 0 <= p < |data| ==>
      TopResult(TrieAnswers(pool, roots, dataIndex, data[p]), r.value[p])
  {
    var built;
    built, plan := GenerateFitting(pool, roots, dataIndexSize, maxSize);
    if built.TooBig? {
      return None, plan;
    }
    var c := built.compiled;
    var seen := ThroughWords(c.table);
    var found := SearchSeen(c, seen, dataIndex, data, slots, groups, pool, roots, depth, height);
    r := Some(found);
  }
}
