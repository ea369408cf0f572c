/** What running a graph without its dead operations does
    (`torch_spyre/_inductor/deadcode_elimination.py`). */
module DeadCodeMeaning {
  import opened DeadCode

  // --- What running the operations does ---

  /** Where every buffer is stored: a mutation's output shares its target's storage,
      any other buffer has its own. */
  ghost predicate IsStorage(ops: seq<Op>, storage: Buffer -> Buffer) {
    && (forall op, b :: op in ops && op.kind.Mutation? && b in op.written ==> storage(b) == storage(op.kind.target))
    && forall b :: !IsAlias(ops, b) ==> storage(b) == b
  }

  ghost predicate IsAlias(ops: seq<Op>, b: Buffer) {
    exists op :: op in ops && op.kind.Mutation? && b in op.written
  }

  /** No mutation writes into another mutation's output. */
  ghost predicate NoChains(ops: seq<Op>) {
    forall op :: op in ops && op.kind.Mutation? ==> !IsAlias(ops, op.kind.target)
  }

  ghost predicate OneWriter(ops: seq<Op>) {
    forall p, q, b :: p in ops && q in ops && b in p.written && b in q.written ==> p == q
  }

  /** Storage contents and the effects impure kernels had, in order. */
  datatype State<!V> = State(store: Buffer -> V, trace: seq<(OpName, map<Buffer, V>)>)

  ghost function Inputs<V>(op: Op, storage: Buffer -> Buffer, store: Buffer -> V): map<Buffer, V> {
    map b | b in op.read :: store(storage(b))
  }

  ghost predicate Touches(op: Op, storage: Buffer -> Buffer, x: Buffer) {
    (exists b :: b in op.written && storage(b) == x) || (op.kind.Mutation? && storage(op.kind.target) == x)
  }

  /** Run one operation: each storage it touches gets a value that depends on what the
      operation reads and on what was there. */
  ghost function Step<V>(op: Op, storage: Buffer -> Buffer, effect: (OpName, Buffer, map<Buffer, V>, V) -> V, s: State<V>)
    : State<V>
  {
    var inputs := Inputs(op, storage, s.store);
    State((x: Buffer) => if Touches(op, storage, x) then effect(op.name, x, inputs, s.store(x)) else s.store(x),
          if op.kind.Impure? then s.trace + [(op.name, inputs)] else s.trace)
  }

  /** Run a schedule, skipping the operations that are not in `keep`. */
  ghost function Run<V>(schedule: seq<Op>, keep: set<OpName>, storage: Buffer -> Buffer,
                        effect: (OpName, Buffer, map<Buffer, V>, V) -> V, s: State<V>): State<V>
  {
    if schedule == [] then s
    else Run(schedule[1..], keep, storage, effect, if schedule[0].name in keep then Step(schedule[0], storage, effect, s) else s)
  }

  /** The states hold the same live buffers and had the same effects. */
  ghost predicate Agree<V(!new)>(live: set<Buffer>, storage: Buffer -> Buffer, s: State<V>, t: State<V>) {
    s.trace == t.trace && forall b :: b in live ==> s.store(storage(b)) == t.store(storage(b))
  }

  /** A buffer whose storage a live buffer has is live too, if it is no alias. */
  lemma StorageLive(ops: seq<Op>, roots: set<Buffer>, live: set<Buffer>, names: set<OpName>, storage: Buffer -> Buffer,
                    b: Buffer)
    requires Closed(ops, roots, live, names) && IsStorage(ops, storage) && NoChains(ops) && b in live
    ensures storage(b) in live
  {
    if IsAlias(ops, b) {
      var m :| m in ops && m.kind.Mutation? && b in m.written;
      assert b in m.written * live;
    }
  }

  /** No dropped operation touches the storage of a live buffer. */
  ghost predicate Untouched(ops: seq<Op>, live: set<Buffer>, names: set<OpName>, storage: Buffer -> Buffer) {
    forall op, b :: op in ops && op.name !in names && b in live ==> !Touches(op, storage, storage(b))
  }

  lemma DeadTouchesNothing(ops: seq<Op>, roots: set<Buffer>, live: set<Buffer>, names: set<OpName>,
                           storage: Buffer -> Buffer, op: Op, b: Buffer)
    requires Closed(ops, roots, live, names) && IsStorage(ops, storage) && NoChains(ops) && OneWriter(ops)
    requires op in ops && op.name !in names && b in live
    ensures !Touches(op, storage, storage(b))
  {
    StorageLive(ops, roots, live, names, storage, b);
    var x := storage(b);
    assert !Keeps(op, live);
    assert op.kind.Mutation? ==> storage(op.kind.target) == op.kind.target;
    forall w | w in op.written ensures storage(w) != x {
      assert w in live ==> w in op.written * live;
      if !op.kind.Mutation? {
        assert !IsAlias(ops, w);
      }
    }
  }

  /** Liveness leaves live storage untouched when no mutation targets another's output. */
  lemma LivenessProtects(ops: seq<Op>, roots: set<Buffer>, live: set<Buffer>, names: set<OpName>, storage: Buffer -> Buffer)
    requires Closed(ops, roots, live, names) && IsStorage(ops, storage) && NoChains(ops) && OneWriter(ops)
    ensures Untouched(ops, live, names, storage)
  {
    forall op, b | op in ops && op.name !in names && b in live ensures !Touches(op, storage, storage(b)) {
      DeadTouchesNothing(ops, roots, live, names, storage, op, b);
    }
  }

  /** A live operation changes live storage alike in agreeing states. */
  lemma LiveStep<V(!new)>(ops: seq<Op>, roots: set<Buffer>, live: set<Buffer>, names: set<OpName>, storage: Buffer -> Buffer,
                          effect: (OpName, Buffer, map<Buffer, V>, V) -> V, op: Op, s: State<V>, t: State<V>)
    requires Closed(ops, roots, live, names) && op in ops && Keeps(op, live) && Agree(live, storage, s, t)
    ensures Agree(live, storage, Step(op, storage, effect, s), Step(op, storage, effect, t))
  {
    assert Inputs(op, storage, s.store) == Inputs(op, storage, t.store);
  }

  /** A dropped operation changes nothing live. */
  lemma DeadStep<V(!new)>(ops: seq<Op>, roots: set<Buffer>, live: set<Buffer>, names: set<OpName>, storage: Buffer -> Buffer,
                          effect: (OpName, Buffer, map<Buffer, V>, V) -> V, op: Op, s: State<V>, t: State<V>)
    requires Closed(ops, roots, live, names) && Untouched(ops, live, names, storage)
    requires op in ops && op.name !in names && Agree(live, storage, s, t)
    ensures Agree(live, storage, Step(op, storage, effect, s), t)
  {
    assert !Keeps(op, live);
  }

  /** Whatever the operations compute and however often and in whatever order they run,
      running only the survivors leaves the same live buffers and the same effects. */
  lemma {:induction false} SurvivorsAgree<V(!new)>(
      ops: seq<Op>, roots: set<Buffer>, live: set<Buffer>, names: set<OpName>, storage: Buffer -> Buffer,
      effect: (OpName, Buffer, map<Buffer, V>, V) -> V, schedule: seq<Op>, s: State<V>, t: State<V>)
    requires Least(ops, roots, live, names) && Untouched(ops, live, names, storage)
    requires (forall op :: op in schedule ==> op in ops) && Agree(live, storage, s, t)
    ensures Agree(live, storage, Run(schedule, Names(ops), storage, effect, s), Run(schedule, names, storage, effect, t))
    decreases schedule
  {
    if schedule != [] {
      var op := schedule[0];
      assert op in schedule;
      var i :| 0 <= i < |ops| && ops[i] == op;
      assert op.name in Names(ops);
      var s' := Step(op, storage, effect, s);
      if op.name in names {
        LiveStep(ops, roots, live, names, storage, effect, op, s, t);
        SurvivorsAgree(ops, roots, live, names, storage, effect, schedule[1..], s', Step(op, storage, effect, t));
      } else {
        DeadStep(ops, roots, live, names, storage, effect, op, s, t);
        SurvivorsAgree(ops, roots, live, names, storage, effect, schedule[1..], s', t);
      }
    }
  }

  function Bump(name: OpName, x: Buffer, inputs: map<Buffer, int>, was: int): int {
    was + 1
  }

  /** Conversely, dropping an operation that touches live storage can be observed. */
  lemma TouchedDisagrees(ops: seq<Op>, live: set<Buffer>, names: set<OpName>, storage: Buffer -> Buffer, op: Op, b: Buffer)
    requires op in ops && op.name !in names && b in live && Touches(op, storage, storage(b))
    ensures var zero := State((x: Buffer) => 0, []);
            !Agree(live, storage, Run([op], Names(ops), storage, Bump, zero), Run([op], names, storage, Bump, zero))
  {
    var zero := State((x: Buffer) => 0, []);
    var i :| 0 <= i < |ops| && ops[i] == op;
    assert op.name in Names(ops);
    assert Run([op], Names(ops), storage, Bump, zero) == Step(op, storage, Bump, zero);
    assert Run([op], names, storage, Bump, zero) == zero;
  }

  // --- The exact condition, before the pass runs ---

  /** In every set of buffers that is closed under use: the roots reach it. */
  ghost predicate Needed(ops: seq<Op>, roots: set<Buffer>, b: Buffer) {
    forall live, names :: Closed(ops, roots, live, names) ==> b in live
  }

  /** Every operation that touches the storage of a needed buffer is impure, mutates a
      needed buffer or writes one. */
  ghost predicate Guarded(ops: seq<Op>, roots: set<Buffer>, storage: Buffer -> Buffer) {
    forall op, b :: op in ops && Needed(ops, roots, b) && Touches(op, storage, storage(b)) ==> Justified(ops, roots, op)
  }

  ghost predicate Justified(ops: seq<Op>, roots: set<Buffer>, op: Op) {
    || op.kind.Impure?
    || (op.kind.Mutation? && Needed(ops, roots, op.kind.target))
    || exists w :: w in op.written && Needed(ops, roots, w)
  }

  lemma NeededIsLive(ops: seq<Op>, roots: set<Buffer>, live: set<Buffer>, names: set<OpName>, b: Buffer)
    requires Least(ops, roots, live, names)
    ensures Needed(ops, roots, b) <==> b in live
  {
  }

  lemma JustifiedIsKept(ops: seq<Op>, roots: set<Buffer>, live: set<Buffer>, names: set<OpName>, op: Op)
    requires Least(ops, roots, live, names) && op in ops
    ensures Justified(ops, roots, op) <==> op.name in names
  {
    forall b ensures Needed(ops, roots, b) <==> b in live {
      NeededIsLive(ops, roots, live, names, b);
    }
    if op.written * live != {} {
      var w :| w in op.written * live;
    }
    if w :| w in op.written && Needed(ops, roots, w) {
      assert w in op.written * live;
    }
    assert op.name in names <==> Keeps(op, live);
  }

  lemma GuardedIsUntouched(ops: seq<Op>, roots: set<Buffer>, live: set<Buffer>, names: set<OpName>, storage: Buffer -> Buffer)
    requires Least(ops, roots, live, names)
    ensures Guarded(ops, roots, storage) <==> Untouched(ops, live, names, storage)
  {
    forall b ensures Needed(ops, roots, b) <==> b in live {
      NeededIsLive(ops, roots, live, names, b);
    }
    forall op | op in ops ensures Justified(ops, roots, op) <==> op.name in names {
      JustifiedIsKept(ops, roots, live, names, op);
    }
  }

  /** Running only the survivors never shows in a live buffer or an effect. */
  ghost predicate Invisible<V(!new)>(ops: seq<Op>, live: set<Buffer>, names: set<OpName>, storage: Buffer -> Buffer) {
    forall effect: (OpName, Buffer, map<Buffer, V>, V) -> V, schedule, s | (forall op :: op in schedule ==> op in ops) ::
      Agree(live, storage, Run(schedule, Names(ops), storage, effect, s), Run(schedule, names, storage, effect, s))
  }

  /** Dropping the dead operations is invisible exactly when the list is guarded. */
  lemma InvisibleIff(ops: seq<Op>, roots: set<Buffer>, live: set<Buffer>, names: set<OpName>, storage: Buffer -> Buffer)
    requires Least(ops, roots, live, names)
    ensures Invisible<int>(ops, live, names, storage) <==> Guarded(ops, roots, storage)
  {
    GuardedIsUntouched(ops, roots, live, names, storage);
    if Guarded(ops, roots, storage) {
      forall effect: (OpName, Buffer, map<Buffer, int>, int) -> int, schedule, s | (forall op :: op in schedule ==> op in ops)
        ensures Agree(live, storage, Run(schedule, Names(ops), storage, effect, s), Run(schedule, names, storage, effect, s))
      {
        SurvivorsAgree(ops, roots, live, names, storage, effect, schedule, s, s);
      }
    } else {
      var op, b :| op in ops && op.name !in names && b in live && Touches(op, storage, storage(b));
      TouchedDisagrees(ops, live, names, storage, op, b);
      assert forall o :: o in [op] ==> o in ops;
    }
  }

  // --- From the pass to what the caller sees ---

  /** Skipping an operation is running a schedule without it. */
  lemma {:induction false} SkippingIsRemoving<V(!new)>(
      schedule: seq<Op>, names: set<OpName>, keep: set<OpName>, storage: Buffer -> Buffer,
      effect: (OpName, Buffer, map<Buffer, V>, V) -> V, s: State<V>)
    requires forall op :: op in schedule && op.name in names ==> op.name in keep
    ensures Run(Survivors(schedule, names), keep, storage, effect, s) == Run(schedule, names, storage, effect, s)
    decreases schedule
  {
    if schedule != [] {
      var op, rest := schedule[0], schedule[1..];
      if op.name in names {
        assert Survivors(schedule, names)[1..] == Survivors(rest, names);
        SkippingIsRemoving(rest, names, keep, storage, effect, Step(op, storage, effect, s));
      } else {
        SkippingIsRemoving(rest, names, keep, storage, effect, s);
      }
    }
  }

  /** After the pass every schedule, without the operations that were removed, leaves the
      same outputs, inputs and constants and has the same effects. */
  lemma PassKeepsObservables<V(!new)>(
      ops: seq<Op>, outputs: set<Buffer>, inputs: set<Buffer>, constants: set<Buffer>, live: set<Buffer>,
      names: set<OpName>, storage: Buffer -> Buffer, effect: (OpName, Buffer, map<Buffer, V>, V) -> V,
      schedule: seq<Op>, s: State<V>)
    requires Least(ops, outputs + inputs + constants, live, names)
    requires Guarded(ops, outputs + inputs + constants, storage) && forall op :: op in schedule ==> op in ops
    ensures var kept := Survivors(ops, names);
            Agree(outputs + inputs + constants, storage, Run(schedule, Names(ops), storage, effect, s),
                  Run(Survivors(schedule, names), Names(kept), storage, effect, s))
  {
    var roots, kept := outputs + inputs + constants, Survivors(ops, names);
    GuardedIsUntouched(ops, roots, live, names, storage);
    SurvivorsAgree(ops, roots, live, names, storage, effect, schedule, s, s);
    forall op | op in schedule && op.name in names ensures op.name in Names(kept) {
      assert op in kept;
      var i :| 0 <= i < |kept| && kept[i] == op;
    }
    SkippingIsRemoving(schedule, names, Names(kept), storage, effect, s);
  }

  /** A mutation of another mutation's output is dropped although the storage it
      writes is an output. */
  lemma ChainIsDropped(r: Buffer, t: Buffer, u: Buffer, outer: OpName, inner: OpName, storage: Buffer -> Buffer)
    requires r != t && t != u && u != r && outer != inner
    requires forall b :: storage(b) == if b == t || b == u then r else b
    ensures var ops := [Op(outer, {}, {t}, Mutation(r)), Op(inner, {}, {u}, Mutation(t))];
            && DistinctNames(ops) && OneWriter(ops) && IsStorage(ops, storage) && !NoChains(ops)
            && Least(ops, {r}, {r}, {outer}) && Touches(ops[1], storage, r)
  {
    var a, b := Op(outer, {}, {t}, Mutation(r)), Op(inner, {}, {u}, Mutation(t));
    var ops := [a, b];
    assert a in ops && b in ops;
    assert IsAlias(ops, t) && IsAlias(ops, u);
    forall live', names' | Closed(ops, {r}, live', names') ensures {r} <= live' && {outer} <= names' {
      assert Keeps(a, live');
    }
    assert !Keeps(b, {r});
  }
}
