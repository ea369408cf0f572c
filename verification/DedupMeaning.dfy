/** Deduplication and promotion preserve what every surviving buffer holds, exactly when
    merged constants that are read were written alike
    (`dedup_and_promote_constants` of `torch_spyre/_inductor/dedup_constants.py`). */
module DedupMeaning {
  import opened DedupConstants
  import opened DedupList

  // --- Running the operations in list order ---

  /** What the operations compute: the value a constant is written as, what any other
      operation makes of the buffers it reads and of what its storage held, and where
      every buffer is stored. A mutation's output shares its target's storage. */
  datatype Semantics<!V> = Semantics(constant: Scalar -> V, effect: (Buffer, map<Buffer, V>, V) -> V, storage: Buffer -> Buffer)

  ghost function Inputs<V>(op: Op, m: Semantics<V>, s: Buffer -> V): map<Buffer, V>
    requires !op.Constant?
  {
    map b | b in op.raw :: s(m.storage(Target(op, b)))
  }

  ghost function Value<V>(op: Op, m: Semantics<V>, s: Buffer -> V): V {
    if op.Constant? then m.constant(op.scalar) else m.effect(op.name, Inputs(op, m, s), s(m.storage(op.name)))
  }

  ghost function Step<V>(op: Op, m: Semantics<V>, s: Buffer -> V): Buffer -> V {
    (x: Buffer) => if x == m.storage(op.name) then Value(op, m, s) else s(x)
  }

  ghost function Exec<V>(ops: seq<Op>, m: Semantics<V>, s: Buffer -> V): Buffer -> V {
    if ops == [] then s else Step(ops[|ops| - 1], m, Exec(ops[..|ops| - 1], m, s))
  }

  lemma {:induction false} ExecConcat<V(!new)>(a: seq<Op>, b: seq<Op>, m: Semantics<V>, s: Buffer -> V)
    ensures Exec(a + b, m, s) == Exec(b, m, Exec(a, m, s))
    decreases |b|
  {
    if b == [] {
      assert a + b == a;
    } else {
      var n := |b| - 1;
      assert (a + b)[..|a + b| - 1] == a + b[..n] && (a + b)[|a + b| - 1] == b[n];
      ExecConcat(a, b[..n], m, s);
    }
  }

  lemma ExecNext<V(!new)>(ops: seq<Op>, i: nat, m: Semantics<V>, s: Buffer -> V)
    requires i < |ops|
    ensures Exec(ops[..i + 1], m, s) == Step(ops[i], m, Exec(ops[..i], m, s))
  {
    assert ops[..i + 1][..i] == ops[..i];
  }

  /** No buffer shares a constant's storage: no mutation targets a constant. */
  ghost predicate ConstantsApart<V>(ops: seq<Op>, m: Semantics<V>) {
    forall i, b :: 0 <= i < |ops| && ops[i].Constant? ==> (m.storage(b) == ops[i].name <==> b == ops[i].name)
  }

  /** Constants come before their readers. */
  ghost predicate ConstantsReady(ops: seq<Op>) {
    forall i, j :: 0 <= i <= j < |ops| && ops[j].Constant? ==> ops[j].name !in Reads(ops[i])
  }

  /** The name of no constant of the list. */
  ghost predicate Varies(ops: seq<Op>, x: Buffer) {
    forall i :: 0 <= i < |ops| && ops[i].Constant? ==> ops[i].name != x
  }

  /** Once run, a constant holds the value it is written as. */
  ghost predicate Holds<V>(ops: seq<Op>, i: int, m: Semantics<V>, s: Buffer -> V) {
    forall k :: 0 <= k < i && k < |ops| && ops[k].Constant? ==> s(ops[k].name) == m.constant(ops[k].scalar)
  }

  lemma HoldsNext<V(!new)>(ops: seq<Op>, i: nat, m: Semantics<V>, s: Buffer -> V)
    requires i < |ops| && DistinctNames(ops) && ConstantsApart(ops, m) && Holds(ops, i, m, s)
    ensures Holds(ops, i + 1, m, Step(ops[i], m, s))
  {
    var t := Step(ops[i], m, s);
    forall k | 0 <= k < i + 1 && ops[k].Constant? ensures t(ops[k].name) == m.constant(ops[k].scalar) {
      assert m.storage(ops[i].name) == ops[k].name <==> ops[i].name == ops[k].name;
    }
  }

  lemma {:induction false} ConstantsHeld<V(!new)>(ops: seq<Op>, i: nat, m: Semantics<V>, env: Buffer -> V)
    requires i <= |ops| && DistinctNames(ops) && ConstantsApart(ops, m)
    ensures Holds(ops, i, m, Exec(ops[..i], m, env))
    decreases i
  {
    if i > 0 {
      ConstantsHeld(ops, i - 1, m, env);
      ExecNext(ops, i - 1, m, env);
      HoldsNext(ops, i - 1, m, Exec(ops[..i - 1], m, env));
    }
  }

  // --- The promoted constants ---

  lemma {:induction false} ExecElsewhere<V(!new)>(ops: seq<Op>, m: Semantics<V>, s: Buffer -> V, x: Buffer)
    requires forall i :: 0 <= i < |ops| ==> m.storage(ops[i].name) != x
    ensures Exec(ops, m, s)(x) == s(x)
  {
    if ops != [] {
      ExecElsewhere(ops[..|ops| - 1], m, s, x);
    }
  }

  /** The constants the new list starts with. */
  ghost function Front(ops: seq<Op>): seq<Op> {
    Keep(Constants(ops), Dups(Pairs(ops)))
  }

  lemma FrontIs(ops: seq<Op>, op: Op)
    ensures op in Front(ops) <==> op in ops && op.Constant? && op.name !in Dups(Pairs(ops))
  {
  }

  lemma FrontProper<V(!new)>(ops: seq<Op>, m: Semantics<V>)
    requires DistinctNames(ops) && ConstantsApart(ops, m)
    ensures DistinctNames(Front(ops)) && ConstantsApart(Front(ops), m)
  {
    FiltersDistinct(ops);
    KeepDistinct(Constants(ops), Dups(Pairs(ops)));
    var front := Front(ops);
    forall i, b | 0 <= i < |front| ensures m.storage(b) == front[i].name <==> b == front[i].name {
      FrontIs(ops, front[i]);
      var k :| 0 <= k < |ops| && ops[k] == front[i];
    }
  }

  /** After the promoted constants, everything but a constant is untouched and every
      constant that is left holds its value. */
  lemma FrontHolds<V(!new)>(ops: seq<Op>, m: Semantics<V>, env: Buffer -> V)
    requires DistinctNames(ops) && ConstantsApart(ops, m)
    ensures var t := Exec(Front(ops), m, env);
            && (forall x :: Varies(ops, x) ==> t(x) == env(x))
            && Kept(ops, m, t)
  {
    var front := Front(ops);
    var t := Exec(front, m, env);
    FrontProper(ops, m);
    ConstantsHeld(front, |front|, m, env);
    assert front[..|front|] == front;
    forall x | Varies(ops, x) ensures t(x) == env(x) {
      forall i | 0 <= i < |front| ensures m.storage(front[i].name) != x {
        FrontIs(ops, front[i]);
        assert m.storage(front[i].name) == front[i].name;
      }
      ExecElsewhere(front, m, env, x);
    }
    forall k | 0 <= k < |ops| && ops[k].Constant? && ops[k].name !in Dups(Pairs(ops))
      ensures t(ops[k].name) == m.constant(ops[k].scalar)
    {
      FrontIs(ops, ops[k]);
      var i :| 0 <= i < |front| && front[i] == ops[k];
    }
  }

  /** Every constant that is left holds its value. */
  ghost predicate Kept<V>(ops: seq<Op>, m: Semantics<V>, t: Buffer -> V) {
    forall k :: 0 <= k < |ops| && ops[k].Constant? && ops[k].name !in Dups(Pairs(ops)) ==>
      t(ops[k].name) == m.constant(ops[k].scalar)
  }

  // --- Old and new list in step ---

  /** Constant p is merged into constant q. */
  ghost predicate Merged(ops: seq<Op>, p: int, q: int) {
    && 0 <= p < |ops| && 0 <= q < |ops| && ops[p].Constant? && ops[q].Constant?
    && (ops[p].name, ops[q].name) in Pairs(ops)
  }

  /** Merged constants that some operation reads were written alike. */
  ghost predicate WrittenAlike(ops: seq<Op>) {
    forall p, q, r ::
      Merged(ops, p, q) && r in ops && ops[p].name in Reads(r) ==> ops[p].scalar == ops[q].scalar
  }

  /** The old run after i operations and the new run over the same operations agree. */
  ghost predicate InStep<V(!new)>(ops: seq<Op>, i: int, m: Semantics<V>, s: Buffer -> V, t: Buffer -> V) {
    && (forall x :: Varies(ops, x) ==> s(x) == t(x))
    && Holds(ops, i, m, s) && Kept(ops, m, t)
  }

  lemma DupIndex(ops: seq<Op>, i: nat) returns (p: nat, q: nat)
    requires DistinctNames(ops) && i < |Pairs(ops)|
    ensures Merged(ops, p, q)
    ensures Pairs(ops)[i] == (ops[p].name, ops[q].name) && ops[q].name !in Dups(Pairs(ops))
  {
    var d, c := PairListed(ops, i);
    p :| 0 <= p < |ops| && ops[p] == d;
    q :| 0 <= q < |ops| && ops[q] == c;
    assert Pairs(ops)[i] in Pairs(ops);
  }

  /** What a non-constant operation reads is the same on both sides. */
  lemma SameRead<V(!new)>(ops: seq<Op>, outputs: set<Buffer>, i: nat, m: Semantics<V>, s: Buffer -> V, t: Buffer -> V,
                          b: Buffer)
    requires DistinctNames(ops) && ConstantsApart(ops, m) && ConstantsReady(ops)
    requires Supported(ops, outputs) && NoOutputDup(ops, outputs) && WrittenAlike(ops)
    requires i < |ops| && !ops[i].Constant? && b in ops[i].raw && InStep(ops, i, m, s, t)
    ensures s(m.storage(Target(ops[i], b))) == t(m.storage(Target(Rewrite(ops[i], outputs, Pairs(ops)), b)))
  {
    var op, r, pairs := ops[i], Target(ops[i], b), Pairs(ops);
    var new' := Rewrite(op, outputs, pairs);
    assert r in Reads(op);
    PairsMergeable(ops);
    if n :| 0 <= n < |pairs| && pairs[n].0 == r {
      var p, q := DupIndex(ops, n);
      assert op in ops && op.Computed?;
      RewriteTarget(op, outputs, pairs, b);
      assert p < i;
    } else {
      assert Target(new', b) == r by {
        if op.Computed? {
          RewriteTarget(op, outputs, pairs, b);
        }
      }
      if Varies(ops, r) {
        StaysVarying(ops, m, r);
      } else {
        var k :| 0 <= k < |ops| && ops[k].Constant? && ops[k].name == r;
        assert k < i;
        NotDup(ops, r);
      }
    }
  }

  lemma NotDup(ops: seq<Op>, r: Buffer)
    requires forall n :: 0 <= n < |Pairs(ops)| ==> Pairs(ops)[n].0 != r
    ensures r !in Dups(Pairs(ops))
  {
  }

  /** What is stored apart from the constants stays apart. */
  lemma StaysVarying<V(!new)>(ops: seq<Op>, m: Semantics<V>, b: Buffer)
    requires ConstantsApart(ops, m) && Varies(ops, b)
    ensures Varies(ops, m.storage(b))
  {
  }

  lemma NameVaries(ops: seq<Op>, i: nat)
    requires DistinctNames(ops) && i < |ops| && !ops[i].Constant?
    ensures Varies(ops, ops[i].name)
  {
  }

  lemma ConstantStep<V(!new)>(ops: seq<Op>, i: nat, m: Semantics<V>, s: Buffer -> V, t: Buffer -> V)
    requires DistinctNames(ops) && ConstantsApart(ops, m)
    requires i < |ops| && ops[i].Constant? && InStep(ops, i, m, s, t)
    ensures InStep(ops, i + 1, m, Step(ops[i], m, s), t)
  {
    HoldsNext(ops, i, m, s);
    assert m.storage(ops[i].name) == ops[i].name;
  }

  lemma OtherStep<V(!new)>(ops: seq<Op>, outputs: set<Buffer>, i: nat, m: Semantics<V>, s: Buffer -> V, t: Buffer -> V)
    requires DistinctNames(ops) && ConstantsApart(ops, m) && ConstantsReady(ops)
    requires Supported(ops, outputs) && NoOutputDup(ops, outputs) && WrittenAlike(ops)
    requires i < |ops| && !ops[i].Constant? && InStep(ops, i, m, s, t)
    ensures InStep(ops, i + 1, m, Step(ops[i], m, s), Step(Rewrite(ops[i], outputs, Pairs(ops)), m, t))
  {
    var op, new' := ops[i], Rewrite(ops[i], outputs, Pairs(ops));
    NameVaries(ops, i);
    StaysVarying(ops, m, op.name);
    forall b | b in op.raw ensures s(m.storage(Target(op, b))) == t(m.storage(Target(new', b))) {
      SameRead(ops, outputs, i, m, s, t, b);
    }
    assert Inputs(op, m, s) == Inputs(new', m, t);
    assert Value(op, m, s) == Value(new', m, t);
    HoldsNext(ops, i, m, s);
  }

  // --- The two runs, prefix by prefix ---

  lemma {:induction false} KeepNext(ops: seq<Op>, op: Op, dropped: set<Buffer>)
    ensures Keep(ops + [op], dropped) == Keep(ops, dropped) + if op.name in dropped then [] else [op]
  {
    if ops == [] {
      assert [op][1..] == [] && ops + [op] == [op];
    } else {
      assert (ops + [op])[1..] == ops[1..] + [op];
      KeepNext(ops[1..], op, dropped);
    }
  }

  lemma {:induction false} NonConstantsNext(ops: seq<Op>, op: Op)
    ensures NonConstants(ops + [op]) == NonConstants(ops) + if op.Constant? then [] else [op]
  {
    if ops == [] {
      assert [op][1..] == [] && ops + [op] == [op];
    } else {
      assert (ops + [op])[1..] == ops[1..] + [op];
      NonConstantsNext(ops[1..], op);
    }
  }

  lemma BacksNext(ops: seq<Op>, i: nat, dropped: set<Buffer>)
    requires i < |ops|
    ensures Backs(ops[..i + 1], dropped)
         == Backs(ops[..i], dropped) + if ops[i].name in dropped || ops[i].Constant? then [] else [ops[i]]
  {
    assert ops[..i + 1] == ops[..i] + [ops[i]];
    KeepNext(ops[..i], ops[i], dropped);
    var kept := Keep(ops[..i], dropped);
    if ops[i].name in dropped {
      assert kept + [] == kept;
    } else {
      NonConstantsNext(kept, ops[i]);
    }
  }

  lemma OnlyConstantsDropped(ops: seq<Op>, i: nat)
    requires DistinctNames(ops) && i < |ops| && ops[i].name in Dups(Pairs(ops))
    ensures ops[i].Constant?
  {
    var n :| 0 <= n < |Pairs(ops)| && Pairs(ops)[n].0 == ops[i].name;
    var p, q := DupIndex(ops, n);
  }

  lemma {:induction false} RunsInStep<V(!new)>(ops: seq<Op>, outputs: set<Buffer>, i: nat, m: Semantics<V>, env: Buffer -> V)
    requires DistinctNames(ops) && ConstantsApart(ops, m) && ConstantsReady(ops)
    requires Supported(ops, outputs) && NoOutputDup(ops, outputs) && WrittenAlike(ops) && i <= |ops|
    ensures InStep(ops, i, m, Exec(ops[..i], m, env),
                   Exec(Backs(RewriteAll(ops, outputs, Pairs(ops))[..i], Dups(Pairs(ops))), m, Exec(Front(ops), m, env)))
    decreases i
  {
    var all, dropped, t0 := RewriteAll(ops, outputs, Pairs(ops)), Dups(Pairs(ops)), Exec(Front(ops), m, env);
    if i == 0 {
      FrontHolds(ops, m, env);
      assert Backs(all[..0], dropped) == [];
    } else {
      var k := i - 1;
      RunsInStep(ops, outputs, k, m, env);
      ExecNext(ops, k, m, env);
      BacksNext(all, k, dropped);
      var s, back := Exec(ops[..k], m, env), Backs(all[..k], dropped);
      if ops[k].Constant? {
        assert Backs(all[..i], dropped) == back;
        ConstantStep(ops, k, m, s, Exec(back, m, t0));
      } else {
        if ops[k].name in dropped {
          OnlyConstantsDropped(ops, k);
        }
        assert Backs(all[..i], dropped) == back + [all[k]];
        assert (back + [all[k]])[..|back|] == back;
        OtherStep(ops, outputs, k, m, s, Exec(back, m, t0));
      }
    }
  }

  // --- The pass preserves the values of what is left, exactly then ---

  /** Every buffer that is left holds after the new list what it held after the old. */
  ghost predicate KeepsValues<V(!new)>(ops: seq<Op>, outputs: set<Buffer>) {
    forall m: Semantics<V>, env: Buffer -> V, x :: ConstantsApart(ops, m) && x !in Dups(Pairs(ops)) ==>
      Exec(Deduplicated(ops, outputs), m, env)(x) == Exec(ops, m, env)(x)
  }

  lemma SurvivorKeepsValue<V(!new)>(ops: seq<Op>, outputs: set<Buffer>, m: Semantics<V>, env: Buffer -> V, x: Buffer)
    requires DistinctNames(ops) && ConstantsApart(ops, m) && ConstantsReady(ops)
    requires Supported(ops, outputs) && NoOutputDup(ops, outputs) && WrittenAlike(ops) && x !in Dups(Pairs(ops))
    ensures Exec(Deduplicated(ops, outputs), m, env)(x) == Exec(ops, m, env)(x)
  {
    var n, all := |ops|, RewriteAll(ops, outputs, Pairs(ops));
    RunsInStep(ops, outputs, n, m, env);
    assert ops[..n] == ops && all[..n] == all;
    NewRun(ops, outputs, m, env);
    AgreeAtEnd(ops, m, Exec(ops, m, env), Exec(Deduplicated(ops, outputs), m, env), x);
  }

  lemma NewRun<V(!new)>(ops: seq<Op>, outputs: set<Buffer>, m: Semantics<V>, env: Buffer -> V)
    ensures Exec(Deduplicated(ops, outputs), m, env)
         == Exec(Backs(RewriteAll(ops, outputs, Pairs(ops)), Dups(Pairs(ops))), m, Exec(Front(ops), m, env))
  {
    ConstantsFirst(ops, outputs);
    ExecConcat(Front(ops), Backs(RewriteAll(ops, outputs, Pairs(ops)), Dups(Pairs(ops))), m, env);
  }

  lemma AgreeAtEnd<V(!new)>(ops: seq<Op>, m: Semantics<V>, s: Buffer -> V, t: Buffer -> V, x: Buffer)
    requires InStep(ops, |ops|, m, s, t) && x !in Dups(Pairs(ops))
    ensures t(x) == s(x)
  {
    if !Varies(ops, x) {
      var k :| 0 <= k < |ops| && ops[k].Constant? && ops[k].name == x;
    }
  }

  lemma SurvivorsKeepValues<V(!new)>(ops: seq<Op>, outputs: set<Buffer>)
    requires DistinctNames(ops) && ConstantsReady(ops)
    requires Supported(ops, outputs) && NoOutputDup(ops, outputs) && WrittenAlike(ops)
    ensures KeepsValues<V>(ops, outputs)
  {
    forall m: Semantics<V>, env: Buffer -> V, x | ConstantsApart(ops, m) && x !in Dups(Pairs(ops))
      ensures Exec(Deduplicated(ops, outputs), m, env)(x) == Exec(ops, m, env)(x)
    {
      SurvivorKeepsValue(ops, outputs, m, env, x);
    }
  }
}
