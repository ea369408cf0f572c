/** The operation list that deduplication and promotion leave
    (`dedup_and_promote_constants` of `torch_spyre/_inductor/dedup_constants.py`). */
module DedupList {
  import opened DedupConstants

  function Names(ops: seq<Op>): (s: set<Buffer>)
    ensures forall op :: op in ops ==> op.name in s
  {
    set i | 0 <= i < |ops| :: ops[i].name
  }

  // --- The promoted list ---

  function Constants(ops: seq<Op>): (r: seq<Op>)
    ensures forall op :: op in r <==> op in ops && op.Constant?
  {
    if ops == [] then [] else if ops[0].Constant? then [ops[0]] + Constants(ops[1..]) else Constants(ops[1..])
  }

  function NonConstants(ops: seq<Op>): (r: seq<Op>)
    ensures forall op :: op in r <==> op in ops && !op.Constant?
  {
    if ops == [] then [] else if ops[0].Constant? then NonConstants(ops[1..]) else [ops[0]] + NonConstants(ops[1..])
  }

  function Promote(ops: seq<Op>): seq<Op> {
    Constants(ops) + NonConstants(ops)
  }

  /** The list the pass leaves. */
  function Deduplicated(ops: seq<Op>, outputs: set<Buffer>): seq<Op> {
    Promote(MergeAll(ops, outputs, Pairs(ops)))
  }

  /** Later members of a constant group are not graph outputs. */
  ghost predicate NoOutputDup(ops: seq<Op>, outputs: set<Buffer>) {
    forall i :: 0 <= i < |Pairs(ops)| ==> Pairs(ops)[i].0 !in outputs
  }

  /** Every reader of a duplicate that is to be redirected is a computed buffer. */
  ghost predicate Supported(ops: seq<Op>, outputs: set<Buffer>) {
    forall op, i :: op in ops && 0 <= i < |Pairs(ops)| && Pairs(ops)[i].0 !in outputs && Pairs(ops)[i].0 in Reads(op) ==>
      op.Computed?
  }

  lemma SurvivorOf(ops: seq<Op>, outputs: set<Buffer>, op: Op) returns (was: Op)
    requires op in Deduplicated(ops, outputs)
    ensures was in ops && was.name !in Dups(Pairs(ops)) && op == Rewrite(was, outputs, Pairs(ops))
  {
    var pairs := Pairs(ops);
    MergeAllIs(ops, outputs, pairs);
    var all := RewriteAll(ops, outputs, pairs);
    assert op in Keep(all, Dups(pairs));
    var i :| 0 <= i < |all| && all[i] == op;
    was := ops[i];
  }

  lemma SurvivorIn(ops: seq<Op>, outputs: set<Buffer>, was: Op)
    requires was in ops && was.name !in Dups(Pairs(ops))
    ensures Rewrite(was, outputs, Pairs(ops)) in Deduplicated(ops, outputs)
  {
    var pairs := Pairs(ops);
    MergeAllIs(ops, outputs, pairs);
    var i :| 0 <= i < |ops| && ops[i] == was;
    assert RewriteAll(ops, outputs, pairs)[i] in RewriteAll(ops, outputs, pairs);
  }

  lemma {:induction false} KeepDistinct(ops: seq<Op>, dropped: set<Buffer>)
    requires DistinctNames(ops)
    ensures DistinctNames(Keep(ops, dropped))
  {
    if ops != [] {
      KeepDistinct(ops[1..], dropped);
      HeadName(ops, Keep(ops[1..], dropped));
    }
  }

  lemma {:induction false} FiltersDistinct(ops: seq<Op>)
    requires DistinctNames(ops)
    ensures DistinctNames(Constants(ops)) && DistinctNames(NonConstants(ops))
  {
    if ops != [] {
      FiltersDistinct(ops[1..]);
      HeadName(ops, Constants(ops[1..]));
      HeadName(ops, NonConstants(ops[1..]));
    }
  }

  lemma HeadName(ops: seq<Op>, some: seq<Op>)
    requires ops != [] && DistinctNames(ops) && forall op :: op in some ==> op in ops[1..]
    ensures forall k :: 0 <= k < |some| ==> some[k].name != ops[0].name
  {
    forall k | 0 <= k < |some| ensures some[k].name != ops[0].name {
      assert some[k] in some;
      var i :| 0 <= i < |ops[1..]| && ops[1..][i] == some[k];
      assert ops[i + 1] == some[k];
    }
  }

  lemma PromoteDistinct(ops: seq<Op>)
    requires DistinctNames(ops)
    ensures DistinctNames(Promote(ops))
  {
    FiltersDistinct(ops);
    var front, back := Constants(ops), NonConstants(ops);
    forall i, j | 0 <= i < |front| && 0 <= j < |back| ensures front[i].name != back[j].name {
      assert front[i] in front && back[j] in back;
      if front[i].name == back[j].name {
        SameName(ops, front[i], back[j]);
      }
    }
  }

  lemma DeduplicatedDistinct(ops: seq<Op>, outputs: set<Buffer>)
    requires DistinctNames(ops)
    ensures DistinctNames(Deduplicated(ops, outputs))
  {
    MergeAllIs(ops, outputs, Pairs(ops));
    KeepDistinct(RewriteAll(ops, outputs, Pairs(ops)), Dups(Pairs(ops)));
    PromoteDistinct(MergeAll(ops, outputs, Pairs(ops)));
  }

  /** The non-constants that are not dropped. */
  function Backs(ops: seq<Op>, dropped: set<Buffer>): seq<Op> {
    NonConstants(Keep(ops, dropped))
  }

  /** The two constants of a pair: same key, and the canonical one survives. */
  lemma PairListed(ops: seq<Op>, i: nat) returns (d: Op, c: Op)
    requires DistinctNames(ops) && i < |Pairs(ops)|
    ensures d in ops && d.Constant? && d.name == Pairs(ops)[i].0
    ensures c in ops && c.Constant? && c.name == Pairs(ops)[i].1
    ensures KeyOf(d.scalar) == KeyOf(c.scalar) && d != c && c.name !in Dups(Pairs(ops))
  {
    var pairs := Pairs(ops);
    var pair := pairs[i];
    assert pair in pairs;
    PairsAre(ops, pair.0, pair.1);
    var key :| DupUnder(ops, key, pair.0, pair.1);
    MembersAre(ops, key, pair.1);
    var p :| 0 <= p < |ops| && ops[p].name == pair.0 && HasKey(ops[p], key);
    var q :| 0 <= q < |ops| && ops[q].name == pair.1 && HasKey(ops[q], key);
    d, c := ops[p], ops[q];
    PairsMergeable(ops);
  }

  // --- The shape of the result ---

  lemma DupListed(ops: seq<Op>, key: Key, d: Buffer, c: Buffer)
    requires DistinctNames(ops) && DupUnder(ops, key, d, c)
    ensures d in Dups(Pairs(ops))
  {
    PairsAre(ops, d, c);
    var i :| 0 <= i < |Pairs(ops)| && Pairs(ops)[i] == (d, c);
  }

  /** Exactly the first constant of every key is left. */
  lemma OnePerKey(ops: seq<Op>, outputs: set<Buffer>, key: Key, b: Buffer)
    requires DistinctNames(ops)
    ensures Listed(Deduplicated(ops, outputs), b, key) <==> IsFirst(ops, key, b)
  {
    MembersAre(ops, key, b);
    if Listed(Deduplicated(ops, outputs), b, key) {
      LeftIsFirst(ops, outputs, key, b);
    }
    if IsFirst(ops, key, b) {
      FirstIsLeft(ops, outputs, key, b);
    }
  }

  lemma LeftIsFirst(ops: seq<Op>, outputs: set<Buffer>, key: Key, b: Buffer)
    requires DistinctNames(ops) && Listed(Deduplicated(ops, outputs), b, key)
    ensures IsFirst(ops, key, b)
  {
    var final := Deduplicated(ops, outputs);
    var k :| 0 <= k < |final| && final[k].name == b && HasKey(final[k], key);
    var was := SurvivorOf(ops, outputs, final[k]);
    var i :| 0 <= i < |ops| && ops[i] == was;
    MembersAre(ops, key, b);
    var first := Members(ops, key)[0];
    if b != first {
      DupListed(ops, key, b, first);
    }
  }

  lemma FirstIsLeft(ops: seq<Op>, outputs: set<Buffer>, key: Key, b: Buffer)
    requires DistinctNames(ops) && IsFirst(ops, key, b)
    ensures Listed(Deduplicated(ops, outputs), b, key)
  {
    var pairs, final := Pairs(ops), Deduplicated(ops, outputs);
    MembersAre(ops, key, b);
    var i :| 0 <= i < |ops| && ops[i].name == b && HasKey(ops[i], key);
    forall n | 0 <= n < |pairs| ensures pairs[n].0 != b {
      FirstIsNoDup(ops, key, b, n);
    }
    SurvivorIn(ops, outputs, ops[i]);
    var k :| 0 <= k < |final| && final[k] == ops[i];
  }

  lemma FirstIsNoDup(ops: seq<Op>, key: Key, b: Buffer, i: nat)
    requires DistinctNames(ops) && IsFirst(ops, key, b) && i < |Pairs(ops)|
    ensures Pairs(ops)[i].0 != b
  {
    var (d, c) := Pairs(ops)[i];
    assert (d, c) in Pairs(ops);
    PairsAre(ops, d, c);
    var key' :| DupUnder(ops, key', d, c);
    MembersAre(ops, key, b);
    if d == b {
      SameKey(ops, b, key', key);
    }
  }

  /** The constants come first, in their original order. */
  lemma {:induction false} ConstantsKept(ops: seq<Op>, outputs: set<Buffer>, pairs: seq<(Buffer, Buffer)>, dropped: set<Buffer>)
    ensures Constants(Keep(RewriteAll(ops, outputs, pairs), dropped)) == Keep(Constants(ops), dropped)
  {
    if ops != [] {
      ConstantsKept(ops[1..], outputs, pairs, dropped);
      var all := RewriteAll(ops, outputs, pairs);
      assert all[1..] == RewriteAll(ops[1..], outputs, pairs);
      if all[0].name !in dropped {
        assert Keep(all, dropped)[1..] == Keep(all[1..], dropped);
      }
      if ops[0].Constant? {
        assert Constants(ops)[1..] == Constants(ops[1..]);
      }
    }
  }

  lemma ConstantsFirst(ops: seq<Op>, outputs: set<Buffer>)
    ensures Deduplicated(ops, outputs)
         == Keep(Constants(ops), Dups(Pairs(ops))) + Backs(RewriteAll(ops, outputs, Pairs(ops)), Dups(Pairs(ops)))
  {
    MergeAllIs(ops, outputs, Pairs(ops));
    ConstantsKept(ops, outputs, Pairs(ops), Dups(Pairs(ops)));
  }

  /** A duplicate that is a graph output is not redirected but still dropped, so every
      output stays produced exactly when no duplicate is an output. */
  lemma OutputsProduced(ops: seq<Op>, outputs: set<Buffer>)
    requires DistinctNames(ops)
    ensures outputs * Names(ops) <= Names(Deduplicated(ops, outputs)) <==> NoOutputDup(ops, outputs)
  {
    var pairs, final := Pairs(ops), Deduplicated(ops, outputs);
    if NoOutputDup(ops, outputs) {
      forall b | b in outputs * Names(ops) ensures b in Names(final) {
        var k :| 0 <= k < |ops| && ops[k].name == b;
        SurvivorIn(ops, outputs, ops[k]);
      }
    } else {
      var i :| 0 <= i < |pairs| && pairs[i].0 in outputs;
      var d, c := PairListed(ops, i);
      if d.name in Names(final) {
        var k :| 0 <= k < |final| && final[k].name == d.name;
        var was := SurvivorOf(ops, outputs, final[k]);
      }
    }
  }
}
