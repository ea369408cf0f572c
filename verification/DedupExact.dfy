/** When deduplication changes a value: merged constants compare equal but need not be
    written alike, since 0.0 and -0.0 share a key
    (`_constant_key` of `torch_spyre/_inductor/dedup_constants.py`). */
module DedupExact {
  import opened Arith
  import opened DedupConstants
  import opened DedupList
  import opened DedupMeaning

  /** Constants that share a key are written alike unless one is a negative zero. */
  lemma SharedKey(a: Scalar, b: Scalar)
    requires KeyOf(a) == KeyOf(b)
    ensures a != b <==> {a.number, b.number} == {Finite(0.0), NegativeZero}
  {
    assert Finite(0.0) in {Finite(0.0), NegativeZero} && NegativeZero in {Finite(0.0), NegativeZero};
    assert a.number in {a.number, b.number} && b.number in {a.number, b.number};
  }

  /** Every buffer has its own storage, constants are worth what is written, and one
      operation hands on one of its inputs. */
  ghost function Copying(reader: Buffer, input: Buffer): Semantics<Scalar> {
    Semantics((s: Scalar) => s,
              (n: Buffer, inputs: map<Buffer, Scalar>, was: Scalar) => if n == reader && input in inputs then inputs[input] else was,
              (b: Buffer) => b)
  }

  lemma {:induction false} WrittenOnce<V(!new)>(ops: seq<Op>, k: nat, m: Semantics<V>, env: Buffer -> V)
    requires k < |ops| && forall j :: k < j < |ops| ==> m.storage(ops[j].name) != m.storage(ops[k].name)
    ensures Exec(ops, m, env)(m.storage(ops[k].name)) == Value(ops[k], m, Exec(ops[..k], m, env))
  {
    ExecNext(ops, k, m, env);
    var done, rest := ops[..k + 1], ops[k + 1..];
    assert ops == done + rest;
    ExecConcat(done, rest, m, env);
    ExecElsewhere(rest, m, Exec(done, m, env), m.storage(ops[k].name));
  }

  /** A reader that hands on a constant listed before it ends up holding that constant. */
  lemma HandsOn(ops: seq<Op>, p: nat, k: nat, input: Buffer, env: Buffer -> Scalar)
    requires DistinctNames(ops) && p < k < |ops| && ops[p].Constant? && !ops[k].Constant?
    requires input in ops[k].raw && Target(ops[k], input) == ops[p].name
    ensures Exec(ops, Copying(ops[k].name, input), env)(ops[k].name) == ops[p].scalar
  {
    var m := Copying(ops[k].name, input);
    ConstantsHeld(ops, k, m, env);
    WrittenOnce(ops, k, m, env);
    assert input in Inputs(ops[k], m, Exec(ops[..k], m, env));
  }

  lemma ReaderKept(ops: seq<Op>, outputs: set<Buffer>, reader: Op)
    requires reader in ops && !reader.Constant? && reader.name !in Dups(Pairs(ops))
    ensures Rewrite(reader, outputs, Pairs(ops)) in Backs(RewriteAll(ops, outputs, Pairs(ops)), Dups(Pairs(ops)))
  {
    var i :| 0 <= i < |ops| && ops[i] == reader;
    assert RewriteAll(ops, outputs, Pairs(ops))[i] in RewriteAll(ops, outputs, Pairs(ops));
  }

  lemma Places<T>(front: seq<T>, back: seq<T>, x: T, y: T) returns (p: nat, k: nat)
    requires x in front && y in back
    ensures p < k < |front + back| && (front + back)[p] == x && (front + back)[k] == y
  {
    p :| 0 <= p < |front| && front[p] == x;
    var j :| 0 <= j < |back| && back[j] == y;
    k := |front| + j;
  }

  /** In the new list the rewritten reader comes after the canonical constant. */
  lemma NewPlaces(ops: seq<Op>, outputs: set<Buffer>, c: Op, reader: Op) returns (p: nat, k: nat)
    requires c in ops && c.Constant? && c.name !in Dups(Pairs(ops))
    requires reader in ops && !reader.Constant? && reader.name !in Dups(Pairs(ops))
    ensures p < k < |Deduplicated(ops, outputs)|
    ensures Deduplicated(ops, outputs)[p] == c && Deduplicated(ops, outputs)[k] == Rewrite(reader, outputs, Pairs(ops))
  {
    ConstantsFirst(ops, outputs);
    FrontIs(ops, c);
    ReaderKept(ops, outputs, reader);
    p, k := Places(Front(ops), Backs(RewriteAll(ops, outputs, Pairs(ops)), Dups(Pairs(ops))), c,
                   Rewrite(reader, outputs, Pairs(ops)));
  }

  /** A reader that hands on a merged constant held the duplicate's written value and
      now holds the canonical one's. */
  lemma ReaderSwitches(ops: seq<Op>, outputs: set<Buffer>, p: nat, q: nat, r: nat, input: Buffer, env: Buffer -> Scalar)
    requires DistinctNames(ops) && ConstantsReady(ops) && Supported(ops, outputs) && NoOutputDup(ops, outputs)
    requires Merged(ops, p, q) && r < |ops| && !ops[r].Constant?
    requires input in ops[r].raw && Target(ops[r], input) == ops[p].name
    ensures ops[r].name !in Dups(Pairs(ops))
    ensures Exec(ops, Copying(ops[r].name, input), env)(ops[r].name) == ops[p].scalar
    ensures Exec(Deduplicated(ops, outputs), Copying(ops[r].name, input), env)(ops[r].name) == ops[q].scalar
  {
    var pairs, reader := Pairs(ops), ops[r];
    assert ops[p].name in Reads(reader);
    assert p < r;
    HandsOn(ops, p, r, input, env);
    if reader.name in Dups(pairs) {
      OnlyConstantsDropped(ops, r);
    }
    var i :| 0 <= i < |pairs| && pairs[i] == (ops[p].name, ops[q].name);
    CanonicalKept(ops, i, q);
    PairsMergeable(ops);
    assert reader in ops && reader.Computed?;
    RewriteTarget(reader, outputs, pairs, input);
    var p', k := NewPlaces(ops, outputs, ops[q], reader);
    DeduplicatedDistinct(ops, outputs);
    HandsOn(Deduplicated(ops, outputs), p', k, input, env);
  }

  lemma CanonicalKept(ops: seq<Op>, i: nat, q: nat)
    requires DistinctNames(ops) && i < |Pairs(ops)| && q < |ops| && Pairs(ops)[i].1 == ops[q].name
    ensures ops[q].name !in Dups(Pairs(ops))
  {
    var p', q' := DupIndex(ops, i);
  }

  /** Merged constants that are read and not written alike give an operation and a run
      that tell the lists apart. */
  lemma Distinguished(ops: seq<Op>, outputs: set<Buffer>) returns (m: Semantics<Scalar>, env: Buffer -> Scalar, x: Buffer)
    requires DistinctNames(ops) && ConstantsReady(ops) && Supported(ops, outputs) && NoOutputDup(ops, outputs)
    requires !WrittenAlike(ops)
    ensures ConstantsApart(ops, m) && x !in Dups(Pairs(ops))
    ensures Exec(Deduplicated(ops, outputs), m, env)(x) != Exec(ops, m, env)(x)
  {
    var p, q, reader :| Merged(ops, p, q) && reader in ops && ops[p].name in Reads(reader) && ops[p].scalar != ops[q].scalar;
    var r :| 0 <= r < |ops| && ops[r] == reader;
    var input :| input in reader.raw && Target(reader, input) == ops[p].name;
    m, env, x := Copying(reader.name, input), (b: Buffer) => ops[p].scalar, reader.name;
    ReaderSwitches(ops, outputs, p, q, r, input, env);
  }

  /** Every buffer that is left keeps its value, whatever the operations compute, exactly
      when merged constants that are read were written alike. */
  lemma KeepsValuesIff(ops: seq<Op>, outputs: set<Buffer>)
    requires DistinctNames(ops) && ConstantsReady(ops) && Supported(ops, outputs) && NoOutputDup(ops, outputs)
    ensures KeepsValues<Scalar>(ops, outputs) <==> WrittenAlike(ops)
  {
    if WrittenAlike(ops) {
      SurvivorsKeepValues<Scalar>(ops, outputs);
    } else {
      var m, env, x := Distinguished(ops, outputs);
    }
  }

  /** A duplicate and its canonical constant hold the same value, whatever constants are
      worth, exactly when they were written alike. */
  lemma DupsHoldSame(ops: seq<Op>, p: nat, q: nat)
    requires DistinctNames(ops) && Merged(ops, p, q)
    ensures ops[p].scalar == ops[q].scalar <==>
            forall m: Semantics<Scalar>, env :: ConstantsApart(ops, m) ==>
              Exec(ops, m, env)(ops[p].name) == Exec(ops, m, env)(ops[q].name)
  {
    assert ops[..|ops|] == ops;
    forall m: Semantics<Scalar>, env | ConstantsApart(ops, m)
      ensures Exec(ops, m, env)(ops[p].name) == m.constant(ops[p].scalar)
      ensures Exec(ops, m, env)(ops[q].name) == m.constant(ops[q].scalar)
    {
      ConstantsHeld(ops, |ops|, m, env);
    }
    var m, env := Copying(ops[p].name, ops[p].name), (b: Buffer) => ops[p].scalar;
    assert ConstantsApart(ops, m);
    assert Exec(ops, m, env)(ops[p].name) == ops[p].scalar && Exec(ops, m, env)(ops[q].name) == ops[q].scalar;
  }

  /** A zero, a negative zero and a reader of the negative one. */
  ghost function Zeros(a: Buffer, b: Buffer, r: Buffer, dtype: int, device: int): seq<Op> {
    [Constant(a, Scalar(Finite(0.0), dtype, device)), Constant(b, Scalar(NegativeZero, dtype, device)), Computed(r, {b}, [])]
  }

  lemma ZerosMerge(a: Buffer, b: Buffer, r: Buffer, dtype: int, device: int)
    requires a != b && a != r && b != r
    ensures Pairs(Zeros(a, b, r, dtype, device)) == [(b, a)]
  {
    var ops := Zeros(a, b, r, dtype, device);
    var key := Scalar(Finite(0.0), dtype, device);
    assert ops[..2] == [ops[0], ops[1]] && ops[..2][..1] == [ops[0]] && [ops[0]][..0] == [];
    assert Members([ops[0]], key) == [a] && KeyOrder([ops[0]]) == [key];
    assert Members(ops[..2], key) == [a, b] && KeyOrder(ops[..2]) == [key];
    assert KeyOrder(ops) == [key];
    var parts := PairsUnder(ops, [key]);
    assert parts[0] == [(b, a)] && parts[..0] == [];
    assert Flatten(parts) == Flatten(parts[..0]) + parts[0];
  }

  /** Every promise is kept and yet the reader of -0.0 ends up with 0.0. */
  lemma NegativeZeroLost(a: Buffer, b: Buffer, r: Buffer, dtype: int, device: int, env: Buffer -> Scalar)
    requires a != b && a != r && b != r
    ensures var ops := Zeros(a, b, r, dtype, device);
            && DistinctNames(ops) && ConstantsReady(ops) && Supported(ops, {r}) && NoOutputDup(ops, {r})
            && Exec(ops, Copying(r, b), env)(r) == Scalar(NegativeZero, dtype, device)
            && Exec(Deduplicated(ops, {r}), Copying(r, b), env)(r) == Scalar(Finite(0.0), dtype, device)
  {
    var ops := Zeros(a, b, r, dtype, device);
    ZerosMerge(a, b, r, dtype, device);
    assert (ops[1].name, ops[0].name) in Pairs(ops);
    assert Target(ops[2], b) == b;
    ReaderSwitches(ops, {r}, 1, 0, 2, b, env);
  }
}
