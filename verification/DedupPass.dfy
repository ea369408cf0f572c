/** The deduplication pass: duplicates are redirected through the reverse index and
    dropped in place (`dedup_and_promote_constants` of
    `torch_spyre/_inductor/dedup_constants.py`). */
module DedupPass {
  import opened Arith
  import opened DedupConstants
  import opened DedupList
  import opened DedupIndex
  import opened DedupUsers

  /** The graph's fields, as a value. */
  datatype State = State(operations: seq<Op>, removed: set<Buffer>, known: set<Buffer>, registered: set<Buffer>,
                         users: map<Buffer, seq<Buffer>>)

  function MergeState(s: State, outputs: set<Buffer>, dup: Buffer, canonical: Buffer): State {
    State(Merge(s.operations, outputs, dup, canonical), s.removed + {dup}, s.known - {dup}, s.registered - {dup},
          MergeUsers(s.users, dup, canonical))
  }

  function StateAfter(s: State, outputs: set<Buffer>, done: seq<(Buffer, Buffer)>): State {
    if done == [] then s
    else
      var n := |done| - 1;
      MergeState(StateAfter(s, outputs, done[..n]), outputs, done[n].0, done[n].1)
  }

  lemma StateNext(s: State, outputs: set<Buffer>, pairs: seq<(Buffer, Buffer)>, n: nat)
    requires n < |pairs|
    ensures StateAfter(s, outputs, pairs[..n + 1])
         == MergeState(StateAfter(s, outputs, pairs[..n]), outputs, pairs[n].0, pairs[n].1)
  {
    assert pairs[..n + 1][..n] == pairs[..n];
  }

  lemma {:induction false} StateAfterIs(s: State, outputs: set<Buffer>, done: seq<(Buffer, Buffer)>)
    ensures StateAfter(s, outputs, done)
         == State(MergeAll(s.operations, outputs, done), s.removed + Dups(done), s.known - Dups(done),
                  s.registered - Dups(done), MergeAllUsers(s.users, done))
    decreases |done|
  {
    if done == [] {
      assert Dups(done) == {};
    } else {
      StateAfterIs(s, outputs, done[..|done| - 1]);
      DupsNext(done);
    }
  }

  /** Where the entries of one part are in the flattened list. */
  lemma {:induction false} FlattenIndex<T>(parts: seq<seq<T>>, i: nat, j: nat)
    requires i < |parts| && j < |parts[i]|
    ensures |Flatten(parts[..i])| + j < |Flatten(parts)|
    ensures Flatten(parts)[|Flatten(parts[..i])| + j] == parts[i][j]
    decreases |parts|
  {
    var n := |parts| - 1;
    if i < n {
      assert parts[..n][..i] == parts[..i];
      FlattenIndex(parts[..n], i, j);
    }
  }

  /** Where one part is in the flattened list. */
  lemma GroupAt<T>(parts: seq<seq<T>>, i: nat)
    requires i < |parts|
    ensures var at := |Flatten(parts[..i])|;
            && at + |parts[i]| == |Flatten(parts[..i + 1])| <= |Flatten(parts)|
            && forall j :: 0 <= j < |parts[i]| ==> Flatten(parts)[at + j] == parts[i][j]
  {
    assert parts[..i + 1][..i] == parts[..i];
    FlattenLonger(parts, i + 1);
    forall j | 0 <= j < |parts[i]| ensures Flatten(parts)[|Flatten(parts[..i])| + j] == parts[i][j] {
      FlattenIndex(parts, i, j);
    }
  }

  lemma {:induction false} FlattenLonger<T>(parts: seq<seq<T>>, i: nat)
    requires i <= |parts|
    ensures |Flatten(parts[..i])| <= |Flatten(parts)|
    decreases |parts|
  {
    var n := |parts| - 1;
    if i == |parts| {
      assert parts[..i] == parts;
    } else {
      assert parts[..n][..i] == parts[..i];
      FlattenLonger(parts[..n], i);
    }
  }

  /** Before a redirect the index lists its live readers and neither constant; `fine`
      says whether they can all be rewritten. */
  ghost predicate StepReady(now: State, outputs: set<Buffer>, index: Index, pair: (Buffer, Buffer), fine: bool) {
    var consumers := Lookup(index, pair.0);
    && DistinctNames(now.operations) && (pair.0 !in outputs ==> consumers == Readers(now.operations, pair.0))
    && pair.0 !in NamesOf(consumers) && pair.1 !in NamesOf(consumers)
    && (fine <==> pair.0 in outputs || AllComputed(consumers))
  }

  /** One merge: the states around it and whether it can be done. */
  datatype Step = Step(pair: (Buffer, Buffer), before: State, after: State, fine: bool)

  ghost predicate GoodStep(outputs: set<Buffer>, index: Index, step: Step) {
    && StepReady(step.before, outputs, index, step.pair, step.fine)
    && step.after == MergeState(step.before, outputs, step.pair.0, step.pair.1)
  }

  /** The state after the first n steps. */
  ghost function Reached(s: State, steps: seq<Step>, n: int): State
    requires 0 <= n <= |steps|
  {
    if n == 0 then s else steps[n - 1].after
  }

  ghost predicate GoodAt(s: State, outputs: set<Buffer>, index: Index, steps: seq<Step>, n: int)
    requires 0 <= n < |steps|
  {
    GoodStep(outputs, index, steps[n]) && steps[n].before == Reached(s, steps, n)
  }

  ghost predicate GoodSteps(s: State, outputs: set<Buffer>, index: Index, steps: seq<Step>) {
    forall n :: 0 <= n < |steps| ==> GoodAt(s, outputs, index, steps, n)
  }

  /** What a failed redirect leaves: some readers may be patched, nothing is dropped. */
  ghost predicate FailedIn(now: State, before: State, pair: (Buffer, Buffer)) {
    && now == before.(operations := now.operations)
    && exists names :: now.operations == PatchNamed(before.operations, names, pair.0, pair.1)
  }

  /** The merges before m are done and merge m failed. */
  ghost predicate StoppedAt(now: State, s: State, steps: seq<Step>, m: int)
    requires 0 <= m < |steps|
  {
    && !steps[m].fine && (forall j :: 0 <= j < m ==> steps[j].fine)
    && FailedIn(now, Reached(s, steps, m), steps[m].pair)
  }

  lemma {:induction false} ReachedIs(s: State, outputs: set<Buffer>, index: Index, steps: seq<Step>, pairs: seq<(Buffer, Buffer)>, n: nat)
    requires n <= |steps| == |pairs| && GoodSteps(s, outputs, index, steps)
    requires forall k :: 0 <= k < |steps| ==> steps[k].pair == pairs[k]
    ensures Reached(s, steps, n) == StateAfter(s, outputs, pairs[..n])
    decreases n
  {
    if n > 0 {
      ReachedIs(s, outputs, index, steps, pairs, n - 1);
      assert GoodAt(s, outputs, index, steps, n - 1);
      StateNext(s, outputs, pairs, n - 1);
    }
  }

  lemma Ready(s: State, outputs: set<Buffer>, index: Index, n: nat)
    requires DistinctNames(s.operations) && n < |Pairs(s.operations)| && Indexed(s.operations, outputs, index)
    ensures var pairs := Pairs(s.operations);
            StepReady(StateAfter(s, outputs, pairs[..n]), outputs, index, pairs[n], PairSupported(s.operations, outputs, n))
  {
    var ops := s.operations;
    StateAfterIs(s, outputs, Pairs(ops)[..n]);
    MergedDistinct(ops, outputs, Pairs(ops)[..n]);
    IndexIsRescan(ops, outputs, n);
    ConstantsAreNoReaders(ops, n, Pairs(ops)[n].0);
  }

  lemma GoodSnoc(s: State, outputs: set<Buffer>, index: Index, steps: seq<Step>, step: Step)
    requires GoodSteps(s, outputs, index, steps) && GoodStep(outputs, index, step)
    requires step.before == Reached(s, steps, |steps|)
    ensures GoodSteps(s, outputs, index, steps + [step])
  {
    var longer := steps + [step];
    forall n | 0 <= n < |longer| ensures GoodAt(s, outputs, index, longer, n) {
      if n < |steps| {
        assert GoodAt(s, outputs, index, steps, n);
      }
    }
  }

  /** Merge n of the original list can be done exactly when `fine` says so. */
  ghost predicate ReadyAt(s: State, outputs: set<Buffer>, index: Index, pairs: seq<(Buffer, Buffer)>, fine: seq<bool>, n: int)
    requires 0 <= n < |pairs| == |fine|
  {
    StepReady(StateAfter(s, outputs, pairs[..n]), outputs, index, pairs[n], fine[n])
  }

  lemma OneStep(s: State, outputs: set<Buffer>, index: Index, pairs: seq<(Buffer, Buffer)>, fine: seq<bool>, n: nat)
    returns (step: Step)
    requires n < |pairs| == |fine| && ReadyAt(s, outputs, index, pairs, fine, n)
    ensures GoodStep(outputs, index, step) && step.pair == pairs[n] && step.fine == fine[n]
    ensures step.before == StateAfter(s, outputs, pairs[..n]) && step.after == StateAfter(s, outputs, pairs[..n + 1])
  {
    StateNext(s, outputs, pairs, n);
    step := Step(pairs[n], StateAfter(s, outputs, pairs[..n]), StateAfter(s, outputs, pairs[..n + 1]), fine[n]);
  }

  lemma AddStep(s: State, outputs: set<Buffer>, index: Index, steps: seq<Step>, step: Step) returns (longer: seq<Step>)
    requires GoodSteps(s, outputs, index, steps) && GoodStep(outputs, index, step)
    requires step.before == Reached(s, steps, |steps|)
    ensures longer == steps + [step]
    ensures GoodSteps(s, outputs, index, longer) && Reached(s, longer, |longer|) == step.after
  {
    longer := steps + [step];
    GoodSnoc(s, outputs, index, steps, step);
  }

  /** `steps` are the first merges of the pairs, one after the other. */
  ghost predicate Through(s: State, outputs: set<Buffer>, index: Index, pairs: seq<(Buffer, Buffer)>, fine: seq<bool>,
                          steps: seq<Step>)
    requires |pairs| == |fine|
  {
    && |steps| <= |pairs| && GoodSteps(s, outputs, index, steps)
    && Reached(s, steps, |steps|) == StateAfter(s, outputs, pairs[..|steps|])
    && Matches(steps, pairs, fine)
  }

  ghost predicate Matches(steps: seq<Step>, pairs: seq<(Buffer, Buffer)>, fine: seq<bool>)
    requires |steps| <= |pairs| == |fine|
  {
    forall n :: 0 <= n < |steps| ==> steps[n].pair == pairs[n] && steps[n].fine == fine[n]
  }

  lemma MatchesNext(steps: seq<Step>, pairs: seq<(Buffer, Buffer)>, fine: seq<bool>, step: Step)
    requires |steps| < |pairs| == |fine| && Matches(steps, pairs, fine)
    requires step.pair == pairs[|steps|] && step.fine == fine[|steps|]
    ensures Matches(steps + [step], pairs, fine)
  {
  }

  lemma ThroughNone(s: State, outputs: set<Buffer>, index: Index, pairs: seq<(Buffer, Buffer)>, fine: seq<bool>)
    requires |pairs| == |fine|
    ensures Through(s, outputs, index, pairs, fine, [])
  {
    assert pairs[..0] == [];
  }

  lemma ThroughNext(s: State, outputs: set<Buffer>, index: Index, pairs: seq<(Buffer, Buffer)>, fine: seq<bool>,
                    steps: seq<Step>) returns (longer: seq<Step>)
    requires |steps| < |pairs| == |fine| && Through(s, outputs, index, pairs, fine, steps)
    requires ReadyAt(s, outputs, index, pairs, fine, |steps|)
    ensures |longer| == |steps| + 1 && Through(s, outputs, index, pairs, fine, longer)
  {
    var step := OneStep(s, outputs, index, pairs, fine, |steps|);
    longer := AddStep(s, outputs, index, steps, step);
    MatchesNext(steps, pairs, fine, step);
  }

  lemma {:induction false} MakeSteps(s: State, outputs: set<Buffer>, index: Index, pairs: seq<(Buffer, Buffer)>,
                                     fine: seq<bool>, k: nat) returns (steps: seq<Step>)
    requires k <= |pairs| == |fine| && forall n :: 0 <= n < |pairs| ==> ReadyAt(s, outputs, index, pairs, fine, n)
    ensures |steps| == k && Through(s, outputs, index, pairs, fine, steps)
    decreases k
  {
    if k == 0 {
      steps := [];
      ThroughNone(s, outputs, index, pairs, fine);
    } else {
      var before := MakeSteps(s, outputs, index, pairs, fine, k - 1);
      assert ReadyAt(s, outputs, index, pairs, fine, k - 1);
      steps := ThroughNext(s, outputs, index, pairs, fine, before);
    }
  }

  /** The steps from `at` on merge the later members of one group. */
  ghost predicate Aligned(steps: seq<Step>, at: int, group: seq<Buffer>) {
    && 0 < |group| && 0 <= at && at + |group| - 1 <= |steps|
    && forall j :: 1 <= j < |group| ==> steps[at + j - 1].pair == (group[j], group[0])
  }

  ghost predicate NextGroup(steps: seq<Step>, starts: seq<nat>, group: seq<Buffer>, i: int)
    requires 0 <= i < |starts| - 1
  {
    Aligned(steps, starts[i], group) && starts[i + 1] == starts[i] + |group| - 1
  }

  /** Where the groups start among the steps. */
  lemma MakeStarts(groups: seq<seq<Buffer>>, parts: seq<seq<(Buffer, Buffer)>>, steps: seq<Step>) returns (starts: seq<nat>)
    requires |steps| == |Flatten(parts)| && forall n :: 0 <= n < |steps| ==> steps[n].pair == Flatten(parts)[n]
    requires |groups| == |parts| && forall i :: 0 <= i < |groups| ==> groups[i] != [] && parts[i] == Later(groups[i])
    ensures |starts| == |groups| + 1 && starts[0] == 0 && starts[|groups|] == |steps|
    ensures forall i :: 0 <= i < |groups| ==> NextGroup(steps, starts, groups[i], i)
  {
    starts := seq(|groups| + 1, i requires 0 <= i <= |groups| => |Flatten(parts[..i])|);
    assert parts[..|groups|] == parts;
    forall i | 0 <= i < |groups| ensures NextGroup(steps, starts, groups[i], i) {
      StartsAt(steps, starts, parts, groups[i], i);
    }
  }

  lemma StartsAt(steps: seq<Step>, starts: seq<nat>, parts: seq<seq<(Buffer, Buffer)>>, group: seq<Buffer>, i: nat)
    requires i < |parts| && |starts| == |parts| + 1 && |steps| == |Flatten(parts)|
    requires starts[i] == |Flatten(parts[..i])| && starts[i + 1] == |Flatten(parts[..i + 1])|
    requires group != [] && parts[i] == Later(group)
    requires forall n :: 0 <= n < |steps| ==> steps[n].pair == Flatten(parts)[n]
    ensures NextGroup(steps, starts, group, i)
  {
    GroupAligned(steps, parts, i, group);
  }

  lemma GroupAligned(steps: seq<Step>, parts: seq<seq<(Buffer, Buffer)>>, i: nat, group: seq<Buffer>)
    requires i < |parts| && |steps| == |Flatten(parts)| && 0 < |group| && parts[i] == Later(group)
    requires forall n :: 0 <= n < |steps| ==> steps[n].pair == Flatten(parts)[n]
    ensures Aligned(steps, |Flatten(parts[..i])|, group)
    ensures |Flatten(parts[..i + 1])| == |Flatten(parts[..i])| + |group| - 1
  {
    GroupAt(parts, i);
    forall j | 1 <= j < |group| ensures steps[|Flatten(parts[..i])| + j - 1].pair == (group[j], group[0]) {
      assert parts[i][j - 1] == (group[j], group[0]);
    }
  }

  ghost function Fine(ops: seq<Op>, outputs: set<Buffer>): (fine: seq<bool>)
    ensures |fine| == |Pairs(ops)|
  {
    seq(|Pairs(ops)|, n requires 0 <= n < |Pairs(ops)| => PairSupported(ops, outputs, n))
  }

  lemma FineIs(ops: seq<Op>, outputs: set<Buffer>)
    ensures forall n :: 0 <= n < |Pairs(ops)| ==> Fine(ops, outputs)[n] == PairSupported(ops, outputs, n)
    ensures Supported(ops, outputs) <==> forall n :: 0 <= n < |Pairs(ops)| ==> Fine(ops, outputs)[n]
  {
    SupportedIff(ops, outputs);
  }

  /** Everything the redirect loop relies on. */
  lemma PrepareSteps(s: State, outputs: set<Buffer>, index: Index) returns (steps: seq<Step>)
    requires DistinctNames(s.operations) && Indexed(s.operations, outputs, index)
    ensures |steps| == |Pairs(s.operations)| && GoodSteps(s, outputs, index, steps)
    ensures forall n :: 0 <= n < |steps| ==> steps[n].pair == Pairs(s.operations)[n]
    ensures Reached(s, steps, |steps|) == StateAfter(s, outputs, Pairs(s.operations))
    ensures Supported(s.operations, outputs) <==> forall n :: 0 <= n < |steps| ==> steps[n].fine
    ensures forall n :: 0 <= n < |steps| ==> steps[n].fine == PairSupported(s.operations, outputs, n)
  {
    var pairs, fine := Pairs(s.operations), Fine(s.operations, outputs);
    FineIs(s.operations, outputs);
    forall n | 0 <= n < |pairs| ensures ReadyAt(s, outputs, index, pairs, fine, n) {
      Ready(s, outputs, index, n);
    }
    steps := MakeSteps(s, outputs, index, pairs, fine, |pairs|);
    assert pairs[..|pairs|] == pairs;
  }

  ghost function GroupList(ops: seq<Op>, keys: seq<Key>): (groups: seq<seq<Buffer>>)
    ensures |groups| == |keys| && forall i :: 0 <= i < |keys| ==> groups[i] == Members(ops, keys[i])
  {
    seq(|keys|, i requires 0 <= i < |keys| => Members(ops, keys[i]))
  }

  lemma PrepareStarts(ops: seq<Op>, steps: seq<Step>) returns (starts: seq<nat>)
    requires |steps| == |Pairs(ops)| && forall n :: 0 <= n < |steps| ==> steps[n].pair == Pairs(ops)[n]
    ensures var groups := GroupList(ops, KeyOrder(ops));
            && |starts| == |groups| + 1 && starts[0] == 0 && starts[|groups|] == |steps|
            && forall i :: 0 <= i < |groups| ==> NextGroup(steps, starts, groups[i], i)
  {
    var keys := KeyOrder(ops);
    GroupsNonEmpty(ops);
    assert forall i :: 0 <= i < |keys| ==> keys[i] in keys;
    starts := MakeStarts(GroupList(ops, keys), PairsUnder(ops, keys), steps);
  }

  /** The pass failed at duplicate n, the first that cannot be redirected: earlier merges
      are complete and nothing of this one is dropped. */
  ghost predicate AbortedAt(now: State, s: State, outputs: set<Buffer>, n: int) {
    var pairs := Pairs(s.operations);
    && 0 <= n < |pairs| && !PairSupported(s.operations, outputs, n)
    && (forall j :: 0 <= j < n ==> PairSupported(s.operations, outputs, j))
    && FailedIn(now, StateAfter(s, outputs, pairs[..n]), pairs[n])
  }

  class Graph {
    var operations: seq<Op>
    const outputs: set<Buffer>
    var removedBuffers: set<Buffer>
    var nameToBuffer: set<Buffer>
    /** The registered operations, each under the buffer it produces. */
    var nameToOp: set<Buffer>
    var nameToUsers: map<Buffer, seq<Buffer>>

    constructor (operations: seq<Op>, outputs: set<Buffer>, nameToBuffer: set<Buffer>, nameToOp: set<Buffer>,
                 nameToUsers: map<Buffer, seq<Buffer>>)
      ensures this.operations == operations && this.outputs == outputs && removedBuffers == {}
      ensures this.nameToBuffer == nameToBuffer && this.nameToOp == nameToOp && this.nameToUsers == nameToUsers
    {
      this.operations, this.outputs, removedBuffers := operations, outputs, {};
      this.nameToBuffer, this.nameToOp, this.nameToUsers := nameToBuffer, nameToOp, nameToUsers;
    }

    ghost function Current(): State
      reads this
    {
      State(operations, removedBuffers, nameToBuffer, nameToOp, nameToUsers)
    }

    /** Rewrite every consumer of a duplicate; false for an operation that cannot be. */
    method RedirectConsumers(consumers: seq<Consumer>, dup: Buffer, canonical: Buffer) returns (ok: bool)
      requires DistinctNames(operations)
      requires dup !in outputs ==> consumers == Readers(operations, dup)
      requires dup !in NamesOf(consumers) && canonical !in NamesOf(consumers)
      modifies this`operations
      ensures ok <==> dup in outputs || AllComputed(consumers)
      ensures ok ==> operations == if dup in outputs then old(operations) else Redirect(old(operations), dup, canonical)
      ensures !ok ==> exists names :: operations == PatchNamed(old(operations), names, dup, canonical)
    {
      if dup in outputs {
        return true;
      }
      ghost var ops := operations;
      ReadersDistinct(ops, dup);
      for k := 0 to |consumers|
        invariant operations == PatchNamed(ops, NamesOf(consumers[..k]), dup, canonical)
        invariant AllComputed(consumers[..k])
      {
        var consumer := consumers[k];
        assert consumers[..k + 1] == consumers[..k] + [consumer];
        NamesConcat(consumers[..k], [consumer]);
        assert NamesOf([consumer]) == {consumer.name};
        if consumer.name != dup && consumer.name != canonical {
          if !consumer.computed {
            return false;
          }
          operations := PatchNamed(operations, {consumer.name}, dup, canonical);
        }
      }
      assert consumers[..|consumers|] == consumers;
      PatchReaders(ops, dup, canonical);
      ok := true;
    }

    /** Remove a duplicate and update the graph's bookkeeping. */
    method DropConstant(dup: Buffer, canonical: Buffer)
      modifies this`operations, this`removedBuffers, this`nameToBuffer, this`nameToOp, this`nameToUsers
      ensures operations == Drop(old(operations), dup)
      ensures removedBuffers == old(removedBuffers) + {dup} && nameToBuffer == old(nameToBuffer) - {dup}
      ensures nameToOp == old(nameToOp) - {dup}
      ensures nameToUsers == MergeUsers(old(nameToUsers), dup, canonical)
    {
      operations := Drop(operations, dup);
      removedBuffers := removedBuffers + {dup};
      nameToBuffer := nameToBuffer - {dup};
      nameToOp := nameToOp - {dup};
      var extra := if dup in nameToUsers then nameToUsers[dup] else [];
      nameToUsers := nameToUsers - {dup};
      if extra != [] {
        nameToUsers := nameToUsers[canonical := (if canonical in nameToUsers then nameToUsers[canonical] else []) + extra];
      }
    }

    method MergeOne(consumers: seq<Consumer>, dup: Buffer, canonical: Buffer) returns (ok: bool)
      requires DistinctNames(operations)
      requires dup !in outputs ==> consumers == Readers(operations, dup)
      requires dup !in NamesOf(consumers) && canonical !in NamesOf(consumers)
      modifies this`operations, this`removedBuffers, this`nameToBuffer, this`nameToOp, this`nameToUsers
      ensures ok <==> dup in outputs || AllComputed(consumers)
      ensures ok ==> Current() == MergeState(old(Current()), outputs, dup, canonical)
      ensures !ok ==> FailedIn(Current(), old(Current()), (dup, canonical))
    {
      ok := RedirectConsumers(consumers, dup, canonical);
      if ok {
        DropConstant(dup, canonical);
      }
    }

    method MergeNext(index: Index, dup: Buffer, canonical: Buffer, ghost s: State, ghost steps: seq<Step>, ghost n: nat)
      returns (ok: bool)
      requires n < |steps| && GoodSteps(s, outputs, index, steps) && steps[n].pair == (dup, canonical)
      requires Current() == Reached(s, steps, n)
      modifies this`operations, this`removedBuffers, this`nameToBuffer, this`nameToOp, this`nameToUsers
      ensures ok <==> steps[n].fine
      ensures ok ==> Current() == Reached(s, steps, n + 1)
      ensures !ok ==> FailedIn(Current(), Reached(s, steps, n), steps[n].pair)
    {
      assert GoodAt(s, outputs, index, steps, n);
      ok := MergeOne(Lookup(index, dup), dup, canonical);
    }

    /** Merge the later members of one group: the steps from `at` on. */
    method MergeGroup(index: Index, group: seq<Buffer>, ghost s: State, ghost steps: seq<Step>, ghost at: nat)
      returns (ok: bool)
      requires GoodSteps(s, outputs, index, steps) && Aligned(steps, at, group) && Current() == Reached(s, steps, at)
      modifies this`operations, this`removedBuffers, this`nameToBuffer, this`nameToOp, this`nameToUsers
      ensures ok ==> Current() == Reached(s, steps, at + |group| - 1)
      ensures ok <==> forall m :: at <= m < at + |group| - 1 ==> steps[m].fine
      ensures !ok && (forall j :: 0 <= j < at ==> steps[j].fine) ==>
                exists m :: 0 <= m < |steps| && StoppedAt(Current(), s, steps, m)
    {
      for j := 1 to |group|
        invariant Current() == Reached(s, steps, at + j - 1)
        invariant forall m :: at <= m < at + j - 1 ==> steps[m].fine
      {
        ok := MergeNext(index, group[j], group[0], s, steps, at + j - 1);
        if !ok {
          assert (forall k :: 0 <= k < at ==> steps[k].fine) ==> StoppedAt(Current(), s, steps, at + j - 1);
          return;
        }
      }
      ok := true;
    }

    method MergeGroups(index: Index, keys: seq<Key>, groups: map<Key, seq<Buffer>>, ghost s: State,
                       ghost listed: seq<seq<Buffer>>, ghost steps: seq<Step>, ghost starts: seq<nat>)
      returns (ok: bool)
      requires |listed| == |keys| && forall i :: 0 <= i < |keys| ==> keys[i] in groups && groups[keys[i]] == listed[i]
      requires |starts| == |keys| + 1 && starts[0] == 0 && starts[|keys|] == |steps|
      requires forall i :: 0 <= i < |keys| ==> NextGroup(steps, starts, listed[i], i)
      requires GoodSteps(s, outputs, index, steps) && Current() == s
      modifies this`operations, this`removedBuffers, this`nameToBuffer, this`nameToOp, this`nameToUsers
      ensures ok <==> forall n :: 0 <= n < |steps| ==> steps[n].fine
      ensures ok ==> Current() == Reached(s, steps, |steps|)
      ensures !ok ==> exists m :: 0 <= m < |steps| && StoppedAt(Current(), s, steps, m)
    {
      for i := 0 to |keys|
        invariant starts[i] <= |steps| && Current() == Reached(s, steps, starts[i])
        invariant forall m :: 0 <= m < starts[i] ==> steps[m].fine
      {
        var group := groups[keys[i]];
        assert NextGroup(steps, starts, listed[i], i);
        ok := MergeGroup(index, group, s, steps, starts[i]);
        if !ok {
          return;
        }
      }
      ok := true;
    }

    method DedupAndPromoteConstants() returns (ok: bool)
      requires DistinctNames(operations)
      modifies this`operations, this`removedBuffers, this`nameToBuffer, this`nameToOp, this`nameToUsers
      ensures ok <==> Supported(old(operations), outputs)
      ensures ok ==> operations == Deduplicated(old(operations), outputs)
      ensures ok ==> removedBuffers == old(removedBuffers) + Dups(Pairs(old(operations)))
      ensures ok ==> nameToBuffer == old(nameToBuffer) - Dups(Pairs(old(operations)))
      ensures ok ==> nameToOp == old(nameToOp) - Dups(Pairs(old(operations)))
      ensures ok ==> nameToUsers == MergeAllUsers(old(nameToUsers), Pairs(old(operations)))
      ensures !ok ==> exists n :: AbortedAt(Current(), old(Current()), outputs, n)
    {
      ghost var s := Current();
      var keys, groups := GroupByKey(operations);
      var duplicates := CollectDuplicates(operations, keys, groups, outputs);
      var index: Index := map[];
      if duplicates != {} {
        index := BuildReverseConsumerIndex(operations, duplicates);
      }
      IndexCovers(s.operations, outputs, duplicates, index);
      ghost var steps := PrepareSteps(s, outputs, index);
      ghost var starts := PrepareStarts(s.operations, steps);
      StateAfterIs(s, outputs, Pairs(s.operations));
      ok := MergeGroups(index, keys, groups, s, GroupList(s.operations, keys), steps, starts);
      if ok {
        operations := Constants(operations) + NonConstants(operations);
      } else {
        ghost var n :| 0 <= n < |steps| && StoppedAt(Current(), s, steps, n);
        ReachedIs(s, outputs, index, steps, Pairs(s.operations), n);
        assert AbortedAt(Current(), s, outputs, n);
      }
    }
  }
}
