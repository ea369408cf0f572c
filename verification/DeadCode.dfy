/** Dead-operation elimination over mutations and loop bodies
    (`torch_spyre/_inductor/deadcode_elimination.py`). */
module DeadCode {
  import opened Arith

  datatype Buffer = Buffer(name: string)

  datatype OpName = OpName(name: string)

  /** A mutation writes into its target's storage; an impure kernel has an effect of
      its own. */
  datatype Kind = Pure | Impure | Mutation(target: Buffer)

  datatype Op = Op(name: OpName, read: set<Buffer>, written: set<Buffer>, kind: Kind)

  predicate HasSideEffects(op: Op) {
    !op.kind.Pure?
  }

  /** Whether a side-effecting operation's write can still be observed. */
  predicate TargetIsLive(op: Op, live: set<Buffer>) {
    op.kind.Mutation? ==> op.kind.target in live
  }

  predicate Keeps(op: Op, live: set<Buffer>) {
    (HasSideEffects(op) && TargetIsLive(op, live)) || op.written * live != {}
  }

  /** What a live operation makes live: what it reads and what it mutates. */
  function Uses(op: Op): set<Buffer> {
    op.read + if op.kind.Mutation? then {op.kind.target} else {}
  }

  predicate DistinctNames(ops: seq<Op>) {
    forall i, j :: 0 <= i < j < |ops| ==> ops[i].name != ops[j].name
  }

  // --- Liveness is a least fixed point ---

  ghost predicate Closed(ops: seq<Op>, roots: set<Buffer>, live: set<Buffer>, names: set<OpName>) {
    && roots <= live
    && forall op :: op in ops && Keeps(op, live) ==> op.name in names && Uses(op) <= live
  }

  ghost predicate Least(ops: seq<Op>, roots: set<Buffer>, live: set<Buffer>, names: set<OpName>) {
    && Closed(ops, roots, live, names)
    && (forall op :: op in ops && op.name in names ==> Keeps(op, live))
    && forall live', names' :: Closed(ops, roots, live', names') ==> live <= live' && names <= names'
  }

  lemma LeastUnique(ops: seq<Op>, ops': seq<Op>, roots: set<Buffer>, live: set<Buffer>, names: set<OpName>,
                    live': set<Buffer>, names': set<OpName>)
    requires forall op :: op in ops <==> op in ops'
    requires Least(ops, roots, live, names) && Least(ops', roots, live', names')
    ensures live == live' && names == names'
  {
    assert Closed(ops, roots, live', names') && Closed(ops', roots, live, names);
  }

  lemma KeepsMono(op: Op, small: set<Buffer>, large: set<Buffer>)
    requires small <= large && Keeps(op, small)
    ensures Keeps(op, large)
  {
    if op.written * small != {} {
      var b :| b in op.written * small;
      assert b in op.written * large;
    }
  }

  /** What the passes keep true: everything marked is needed, and the uses of every
      marked operation are marked. */
  ghost predicate Marked(ops: seq<Op>, roots: set<Buffer>, live: set<Buffer>, names: set<OpName>) {
    && roots <= live
    && (forall op :: op in ops && op.name in names ==> Keeps(op, live) && Uses(op) <= live)
    && (forall n :: n in names ==> exists op :: op in ops && op.name == n)
    && forall live', names' :: Closed(ops, roots, live', names') ==> live <= live' && names <= names'
  }

  lemma MarkStep(ops: seq<Op>, roots: set<Buffer>, live: set<Buffer>, names: set<OpName>, op: Op)
    requires DistinctNames(ops) && Marked(ops, roots, live, names) && op in ops && Keeps(op, live)
    ensures Marked(ops, roots, live + Uses(op), names + {op.name})
    ensures live + Uses(op) != live ==> op.name !in names
  {
    var grown, named := live + Uses(op), names + {op.name};
    forall o | o in ops && o.name in named ensures Keeps(o, grown) && Uses(o) <= grown {
      if o.name == op.name {
        SameName(ops, o, op);
      }
      KeepsMono(o, live, grown);
    }
    forall live', names' | Closed(ops, roots, live', names') ensures grown <= live' && named <= names' {
      KeepsMono(op, live, live');
    }
  }

  lemma SameName(ops: seq<Op>, a: Op, b: Op)
    requires DistinctNames(ops) && a in ops && b in ops && a.name == b.name
    ensures a == b
  {
    var i :| 0 <= i < |ops| && ops[i] == a;
    var j :| 0 <= j < |ops| && ops[j] == b;
    assert i == j;
  }

  /** One reverse liveness pass. If nothing was added, the marks are closed. */
  method WalkOnce(ops: seq<Op>, ghost roots: set<Buffer>, live0: set<Buffer>, names0: set<OpName>)
    returns (live: set<Buffer>, names: set<OpName>)
    requires DistinctNames(ops) && Marked(ops, roots, live0, names0)
    ensures Marked(ops, roots, live, names) && live0 <= live && names0 <= names
    ensures live != live0 ==> names != names0
    ensures names == names0 ==> Closed(ops, roots, live, names)
  {
    live, names := live0, names0;
    var i := |ops|;
    while i > 0
      invariant 0 <= i <= |ops| && Marked(ops, roots, live, names) && live0 <= live && names0 <= names
      invariant live != live0 ==> names != names0
      invariant names == names0 ==> forall k :: i <= k < |ops| && Keeps(ops[k], live) ==> ops[k].name in names
    {
      i := i - 1;
      var op := ops[i];
      if Keeps(op, live) {
        MarkStep(ops, roots, live, names, op);
        live, names := live + Uses(op), names + {op.name};
      }
    }
    assert forall op :: op in ops ==> exists k :: 0 <= k < |ops| && ops[k] == op;
  }

  function Names(ops: seq<Op>): set<OpName> {
    set i | 0 <= i < |ops| :: ops[i].name
  }

  lemma {:induction false} NamesBound(ops: seq<Op>)
    ensures |Names(ops)| <= |ops|
  {
    if ops == [] {
      assert Names(ops) == {};
    } else {
      var n := |ops| - 1;
      NamesBound(ops[..n]);
      assert Names(ops) == Names(ops[..n]) + {ops[n].name};
    }
  }

  lemma MarkedBound(ops: seq<Op>, roots: set<Buffer>, live: set<Buffer>, names: set<OpName>)
    requires Marked(ops, roots, live, names)
    ensures |names| <= |ops|
  {
    forall n | n in names ensures n in Names(ops) {
      var op :| op in ops && op.name == n;
      var i :| 0 <= i < |ops| && ops[i] == op;
    }
    SubsetSize(names, Names(ops));
    NamesBound(ops);
  }

  /** The operations some root depends on, by repeated marking. */
  method LiveOperations(ops: seq<Op>, outputs: set<Buffer>, inputs: set<Buffer>, constants: set<Buffer>)
    returns (names: set<OpName>)
    requires DistinctNames(ops)
    ensures exists live :: Least(ops, outputs + inputs + constants, live, names)
  {
    ghost var roots := outputs + inputs + constants;
    var bufs := outputs + inputs + constants;
    names := {};
    ghost var settled := false;
    for pass := 0 to |ops| + 1
      invariant Marked(ops, roots, bufs, names)
      invariant |names| >= pass
      invariant !settled
    {
      var nextBufs, nextNames := WalkOnce(ops, roots, bufs, names);
      SubsetSize(names, nextNames);
      if |nextBufs| == |bufs| && |nextNames| == |names| {
        bufs, names := nextBufs, nextNames;
        settled := true;
        break;
      }
      SubsetSize(bufs, nextBufs);
      bufs, names := nextBufs, nextNames;
    }
    MarkedBound(ops, roots, bufs, names);
    assert Least(ops, roots, bufs, names);
  }

  // --- The pass ---

  function Survivors(ops: seq<Op>, names: set<OpName>): (kept: seq<Op>)
    ensures forall op :: op in kept <==> op in ops && op.name in names
  {
    if ops == [] then []
    else if ops[0].name in names then [ops[0]] + Survivors(ops[1..], names)
    else Survivors(ops[1..], names)
  }

  /** `list.remove`: drop the first occurrence. */
  function RemoveFirst(ops: seq<Op>, op: Op): seq<Op> {
    if ops == [] then [] else if ops[0] == op then ops[1..] else [ops[0]] + RemoveFirst(ops[1..], op)
  }

  lemma RemoveLater(head: Op, tail: seq<Op>, op: Op)
    requires head != op
    ensures RemoveFirst([head] + tail, op) == [head] + RemoveFirst(tail, op)
  {
    assert ([head] + tail)[1..] == tail;
  }

  lemma {:induction false} RemoveSurvivor(ops: seq<Op>, names: set<OpName>, op: Op)
    requires DistinctNames(ops) && op in ops && op.name !in names
    ensures RemoveFirst(Survivors(ops, names + {op.name}), op) == Survivors(ops, names)
    decreases |ops|
  {
    var rest := ops[1..];
    assert DistinctNames(rest) && (op == ops[0] || op in rest);
    if op == ops[0] {
      SameSurvivors(rest, names, names + {op.name});
    } else {
      assert ops[0].name != op.name;
      RemoveSurvivor(rest, names, op);
      RemoveLater(ops[0], Survivors(rest, names + {op.name}), op);
    }
  }

  lemma {:induction false} SameSurvivors(ops: seq<Op>, a: set<OpName>, b: set<OpName>)
    requires forall i :: 0 <= i < |ops| ==> (ops[i].name in a <==> ops[i].name in b)
    ensures Survivors(ops, a) == Survivors(ops, b)
    decreases |ops|
  {
    if ops != [] {
      SameSurvivors(ops[1..], a, b);
    }
  }

  ghost function Written(ops: seq<Op>): set<Buffer> {
    set op, b | op in ops && b in op.written :: b
  }

  ghost function DeadWrites(ops: seq<Op>, names: set<OpName>): set<Buffer> {
    set op, b | op in ops && op.name !in names && b in op.written :: b
  }

  /** Survivors read and mutate only what survives, and no root is removed. */
  lemma NothingLiveRemoved(ops: seq<Op>, roots: set<Buffer>, live: set<Buffer>, names: set<OpName>)
    requires Least(ops, roots, live, names)
    ensures DeadWrites(ops, names) !! live && roots !! DeadWrites(ops, names)
    ensures forall op :: op in Survivors(ops, names) ==> Uses(op) !! DeadWrites(ops, names)
  {
    forall op, b | op in ops && op.name !in names && b in op.written ensures b !in live {
      assert b in live ==> b in op.written * live;
    }
  }

  /** A second run removes nothing. */
  lemma SurvivorsAllLive(ops: seq<Op>, roots: set<Buffer>, live: set<Buffer>, names: set<OpName>,
                         live': set<Buffer>, names': set<OpName>)
    requires Least(ops, roots, live, names) && Least(Survivors(ops, names), roots, live', names')
    ensures live' == live && names' == names && Survivors(Survivors(ops, names), names') == Survivors(ops, names)
  {
    var kept := Survivors(ops, names);
    assert Closed(kept, roots, live, names);
    assert Closed(ops, roots, live', names') by {
      forall op | op in ops && Keeps(op, live') ensures op.name in names' && Uses(op) <= live' {
        KeepsMono(op, live', live);
      }
    }
    AllSurvive(kept, names);
  }

  lemma {:induction false} AllSurvive(ops: seq<Op>, names: set<OpName>)
    requires forall op :: op in ops ==> op.name in names
    ensures Survivors(ops, names) == ops
  {
    if ops != [] {
      AllSurvive(ops[1..], names);
      assert ops == [ops[0]] + ops[1..];
    }
  }

  /** The dead operations, in order. */
  method CollectDead(ops: seq<Op>, names: set<OpName>) returns (dead: seq<Op>)
    requires DistinctNames(ops)
    ensures DistinctNames(dead) && forall op :: op in dead <==> op in ops && op.name !in names
  {
    dead := [];
    for i := 0 to |ops|
      invariant DistinctNames(dead)
      invariant forall op :: op in dead <==> op in ops[..i] && op.name !in names
    {
      if ops[i].name !in names {
        forall k | 0 <= k < |dead| ensures dead[k].name != ops[i].name {
          assert dead[k] in dead;
        }
        dead := dead + [ops[i]];
      }
    }
  }

  /** The lowered graph as the pass sees it. */
  class Graph {
    var operations: seq<Op>
    var outputs: set<Buffer>
    var inputs: set<Buffer>
    var constants: set<Buffer>
    var removedBuffers: set<Buffer>

    ghost function Roots(): set<Buffer>
      reads this
    {
      outputs + inputs + constants
    }

    method DeadcodeElimination() returns (names: set<OpName>, ghost live: set<Buffer>)
      requires DistinctNames(operations)
      modifies this`operations, this`removedBuffers
      ensures Least(old(operations), Roots(), live, names)
      ensures operations == Survivors(old(operations), names)
      ensures removedBuffers == old(removedBuffers) + DeadWrites(old(operations), names)
      ensures removedBuffers - old(removedBuffers) !! live
    {
      ghost var ops := operations;
      names := LiveOperations(operations, outputs, inputs, constants);
      ghost var roots := Roots();
      live :| Least(ops, roots, live, names);
      NothingLiveRemoved(ops, roots, live, names);
      var dead := CollectDead(operations, names);
      AllNamed(ops, names, dead);
      for k := 0 to |dead|
        invariant operations == Survivors(ops, names + Names(dead[k..]))
        invariant removedBuffers == old(removedBuffers) + Written(dead[..k])
      {
        var op := dead[k];
        assert op in dead;
        assert Names(dead[k..]) == Names(dead[k + 1..]) + {op.name} by { NamesSplit(dead, k); }
        assert names + Names(dead[k..]) == (names + Names(dead[k + 1..])) + {op.name};
        NotNamed(dead, k);
        RemoveSurvivor(ops, names + Names(dead[k + 1..]), op);
        WrittenSnoc(dead, k);
        removedBuffers := removedBuffers + op.written;
        operations := RemoveFirst(operations, op);
      }
      assert dead[|dead|..] == [] && dead[..|dead|] == dead;
      assert names + Names([]) == names;
      assert Written(dead) == DeadWrites(ops, names);
    }
  }

  lemma AllNamed(ops: seq<Op>, names: set<OpName>, dead: seq<Op>)
    requires forall op :: op in dead <==> op in ops && op.name !in names
    ensures Survivors(ops, names + Names(dead[0..])) == ops
  {
    assert dead[0..] == dead;
    forall op | op in ops ensures op.name in names + Names(dead) {
      if op.name !in names {
        var i :| 0 <= i < |dead| && dead[i] == op;
      }
    }
    AllSurvive(ops, names + Names(dead));
  }

  lemma NamesSplit(ops: seq<Op>, k: nat)
    requires k < |ops|
    ensures Names(ops[k..]) == Names(ops[k + 1..]) + {ops[k].name}
  {
    forall n | n in Names(ops[k..]) ensures n in Names(ops[k + 1..]) + {ops[k].name} {
      var i :| 0 <= i < |ops[k..]| && ops[k..][i].name == n;
      if i > 0 {
        assert ops[k + 1..][i - 1].name == n;
      }
    }
    forall n | n in Names(ops[k + 1..]) ensures n in Names(ops[k..]) {
      var i :| 0 <= i < |ops[k + 1..]| && ops[k + 1..][i].name == n;
      assert ops[k..][i + 1].name == n;
    }
    assert ops[k..][0].name == ops[k].name;
  }

  lemma NotNamed(ops: seq<Op>, k: nat)
    requires DistinctNames(ops) && k < |ops|
    ensures ops[k].name !in Names(ops[k + 1..])
  {
    var rest := ops[k + 1..];
    forall i | 0 <= i < |rest| ensures rest[i].name != ops[k].name {
      assert rest[i] == ops[k + 1 + i];
    }
  }

  lemma WrittenSnoc(ops: seq<Op>, k: nat)
    requires k < |ops|
    ensures Written(ops[..k + 1]) == Written(ops[..k]) + ops[k].written
  {
    assert ops[..k + 1] == ops[..k] + [ops[k]];
  }
}
