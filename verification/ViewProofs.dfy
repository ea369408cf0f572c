/** Proving the loops of a view, within the limits on enumeration
    (`work_division_from_view` of `torch_spyre/_inductor/core_mapping.py`). */
module ViewProofs {
  import opened Arith
  import opened Wrappers
  import opened Ownership
  import opened LoopRegions
  import opened LoopProofs
  import opened ViewOwnership
  import opened ViewReading

  /** A view whose cores, ranks and slots are usable and whose split axes can be read. */
  ghost predicate Usable(view: View, access: Access) {
    && view.cores.Some? && 0 < view.cores.value && |access.sizes| == |access.coords|
    && SlotsInside(view.slots, view.splits, view.cores.value) && Readable(view, access)
  }

  lemma ListedReadable(view: View, access: Access, loop: Symbol, axes: seq<int>)
    requires Readable(view, access) && ListsAxes(view, access, loop, axes)
    ensures AllReadable(view, access, axes) && LoopOf(view, access, axes[0]) == loop
  {
    forall i | 0 <= i < |axes| ensures ReadableAxis(view, access, axes[i]) && LoopOf(view, access, axes[i]) == loop {
      var a := axes[i];
      assert a in axes;
    }
  }

  /** What the loop's proof may cost. */
  ghost predicate Affordable(view: View, access: Access, axes: seq<int>, states: int)
    requires view.cores.Some? && axes != [] && AllReadable(view, access, axes)
  {
    DirectFits(view, access, axes) && (|axes| > 1 ==> states + Cost(view, access, axes, view.cores.value) <= MAX_EXACT_OWNERSHIP_POINTS)
  }

  lemma ReadOnAxes(view: View, access: Access, loop: Symbol, axes: seq<int>, split: nat, signatures: seq<seq<int>>, table: seq<int>)
    requires Usable(view, access) && AllReadable(view, access, axes)
    requires LoopRead(view, access, loop, axes, split, signatures, table)
    ensures var extent := ProofExtent(view, access, axes[0], |axes| == 1);
            && 0 < access.extents[LoopOf(view, access, axes[0])]
            && OnAxes(AxesOf(view, access, axes), extent, split)
            && Provable(AxesOf(view, access, axes), extent, split, view.cores.value)
  {
    var listed, cores, extent := AxesOf(view, access, axes), view.cores.value, ProofExtent(view, access, axes[0], |axes| == 1);
    ExtentPositive(view, access, axes[0], |axes| == 1);
    forall i, c | 0 <= i < |listed| && 0 <= c < cores ensures 0 <= Eval(listed[i].slot, c) < listed[i].split {
      assert axes[i] in view.splits;
    }
    OnAxesImplied(listed, extent, split, cores, signatures, table);
  }

  /** One loop of the view. `states` counts what the fused proofs enumerate. */
  method ReadLoop(view: View, access: Access, loop: Symbol, axes: seq<int>, states: int)
    returns (r: Result<(nat, LoopProof)>, states': int)
    requires Usable(view, access) && ListsAxes(view, access, loop, axes) && AllReadable(view, access, axes)
    requires forall c :: c in access.coords ==> Faithful(c)
    ensures r.Ok? <==> Affordable(view, access, axes, states) && LoopProvable(view, access, loop, axes)
    ensures r.Ok? ==> LoopRead(view, access, loop, axes, r.value.0, r.value.1.signatures, r.value.1.table)
    ensures r.Ok? ==> states' == states + Cost(view, access, axes, view.cores.value)
  {
    states' := states;
    ListedReadable(view, access, loop, axes);
    var cores := view.cores.value;
    ghost var provable := LoopProvable(view, access, loop, axes);
    var listed := AxesOf(view, access, axes);
    var split := LoopSplit(listed, cores);
    var extent := ProofExtent(view, access, axes[0], |axes| == 1);
    if provable {
      ghost var n, signatures, table :| LoopRead(view, access, loop, axes, n, signatures, table);
      ReadOnAxes(view, access, loop, axes, n, signatures, table);
    }
    if access.extents[loop] <= 0 {
      return Err, states;
    }
    if |axes| == 1 {
      if extent > MAX_EXACT_DIRECT_AXIS_POINTS {
        return Err, states;
      }
    } else {
      states' := states + extent + split;
      if states' > MAX_EXACT_OWNERSHIP_POINTS {
        return Err, states';
      }
    }
    ProdPositive(AxisSplits(listed));
    PositiveExtent(view, access, axes[0], |axes| == 1);
    if extent % split != 0 {
      return Err, states';
    }
    assert forall i :: 0 <= i < |axes| ==> access.coords[axes[i]] in access.coords;
    var proof := ProveLoop(listed, extent, split, cores);
    if proof.Err? {
      return Err, states';
    }
    assert LoopRead(view, access, loop, axes, split, proof.value.signatures, proof.value.table);
    r := Ok((split, proof.value));
  }

  lemma PositiveExtent(view: View, access: Access, a: int, single: bool)
    requires ReadableAxis(view, access, a) && 0 < access.extents[LoopOf(view, access, a)]
    ensures 0 < ProofExtent(view, access, a, single)
  {
  }

  // --- The proof of a loop is unique ---

  lemma SameRows(axes: seq<Axis>, extent: int, split: int, p: int, row: seq<int>, row': seq<int>)
    requires ValidLoop(extent, split) && 0 <= p < split && forall i :: 0 <= i < |axes| ==> ValidAxis(axes[i])
    requires |row| == |row'| == |axes| && Inside(axes, extent, split, p, row) && Inside(axes, extent, split, p, row')
    ensures row == row'
  {
    var region := SlotBounds(extent, Ats(Coords(axes)), split, p);
    InsideSignature(axes, extent, split, p, region, row);
    InsideSignature(axes, extent, split, p, region, row');
  }

  lemma SameProof(axes: seq<Axis>, extent: int, split: int, cores: int, signatures: seq<seq<int>>, table: seq<int>,
                  signatures': seq<seq<int>>, table': seq<int>)
    requires ValidLoop(extent, split) && forall i :: 0 <= i < |axes| ==> ValidAxis(axes[i])
    requires Proven(axes, extent, split, cores, signatures, table) && Proven(axes, extent, split, cores, signatures', table')
    ensures signatures == signatures' && table == table'
  {
    forall p | 0 <= p < split ensures signatures[p] == signatures'[p] {
      SameRows(axes, extent, split, p, signatures[p], signatures'[p]);
    }
    assert signatures == signatures';
    forall c | 0 <= c < cores ensures table[c] == table'[c] {
      assert signatures[table[c]] == signatures[table'[c]];
    }
  }

  lemma SameRead(view: View, access: Access, loop: Symbol, axes: seq<int>, split: nat, signatures: seq<seq<int>>, table: seq<int>,
                 split': nat, signatures': seq<seq<int>>, table': seq<int>)
    requires Readable(view, access) && view.cores.Some?
    requires LoopRead(view, access, loop, axes, split, signatures, table)
    requires LoopRead(view, access, loop, axes, split', signatures', table')
    ensures split == split' && signatures == signatures' && table == table'
  {
    ListedReadable(view, access, loop, axes);
    SameProof(AxesOf(view, access, axes), ProofExtent(view, access, axes[0], |axes| == 1), split, view.cores.value,
              signatures, table, signatures', table');
  }

  /** The owner formula of the only axis is the loop's exactly when the partitions are in
      slice order. */
  lemma DirectFollows(view: View, access: Access, loop: Symbol, axes: seq<int>, split: nat, signatures: seq<seq<int>>, table: seq<int>)
    requires Readable(view, access) && view.cores.Some? && |axes| == 1 && AllReadable(view, access, axes)
    requires LoopRead(view, access, loop, axes, split, signatures, table)
    ensures Follows(view.slots[axes[0]], table) <==> InOrder(signatures)
  {
    var listed, slot := AxesOf(view, access, axes), view.slots[axes[0]];
    forall c | 0 <= c < |table| ensures signatures[table[c]] == [Eval(slot, c)] {
      assert signatures[table[c]] == SlotRow(listed, c);
      assert SlotRow(listed, c) == [Eval(slot, c)];
    }
    if Follows(slot, table) {
      forall p | 0 <= p < |signatures| ensures signatures[p] == [p] {
        assert p in table;
        var c :| 0 <= c < |table| && table[c] == p;
      }
    }
    if InOrder(signatures) {
      forall c | 0 <= c < |table| ensures Eval(slot, c) == table[c] {
        assert signatures[table[c]][0] == [table[c]][0];
      }
    }
  }

  /** Partition p is physical slice p, the only order a direct axis may have. */
  predicate InOrder(signatures: seq<seq<int>>) {
    forall p :: 0 <= p < |signatures| ==> signatures[p] == [p]
  }

  // --- All loops ---

  type Proofs = map<Symbol, (nat, LoopProof)>

  ghost predicate ProofHolds(view: View, access: Access, order: seq<int>, proofs: Proofs, loop: Symbol)
    requires Usable(view, access) && AllReadable(view, access, order)
  {
    && loop in proofs
    && LoopRead(view, access, loop, AxesFor(view, access, order, loop), proofs[loop].0, proofs[loop].1.signatures,
                proofs[loop].1.table)
  }

  /** The proofs are those of the listed loops. */
  ghost predicate ProofsHold(view: View, access: Access, order: seq<int>, loops: seq<Symbol>, proofs: Proofs)
    requires Usable(view, access) && AllReadable(view, access, order)
  {
    && (forall loop :: loop in proofs <==> loop in loops)
    && forall loop {:trigger ProofHolds(view, access, order, proofs, loop)} :: loop in loops ==>
         ProofHolds(view, access, order, proofs, loop)
  }

  /** The axes of the loop can be costed. */
  predicate Costed(view: View, access: Access, order: seq<int>, loop: Symbol)
    requires AllReadable(view, access, order)
  {
    var axes := AxesFor(view, access, order, loop);
    axes != [] && AllReadable(view, access, axes)
  }

  lemma DrivenCosted(view: View, access: Access, order: seq<int>, loop: Symbol)
    requires Usable(view, access) && ListsSplits(view, order) && AllReadable(view, access, order)
    requires loop in LoopsOf(view, access, order)
    ensures Costed(view, access, order, loop)
  {
    DrivenLists(view, access, order, loop);
    ListedReadable(view, access, loop, AxesFor(view, access, order, loop));
  }

  function CostOf(view: View, access: Access, order: seq<int>, loop: Symbol): int
    requires view.cores.Some? && AllReadable(view, access, order)
  {
    if Costed(view, access, order, loop) then Cost(view, access, AxesFor(view, access, order, loop), view.cores.value) else 0
  }

  /** The states that the listed loops enumerate. */
  function TotalCost(view: View, access: Access, order: seq<int>, loops: seq<Symbol>): int
    requires view.cores.Some? && AllReadable(view, access, order)
  {
    if loops == [] then 0
    else TotalCost(view, access, order, loops[..|loops| - 1]) + CostOf(view, access, order, loops[|loops| - 1])
  }

  /** One loop can be proved, in slice order if no loop is fused. */
  ghost predicate Ready(view: View, access: Access, order: seq<int>, loop: Symbol, anyFused: bool)
    requires Usable(view, access) && AllReadable(view, access, order)
  {
    var axes := AxesFor(view, access, order, loop);
    && Costed(view, access, order, loop) && DirectFits(view, access, axes)
    && exists split, signatures, table ::
         LoopRead(view, access, loop, axes, split, signatures, table) && (anyFused || InOrder(signatures))
  }

  lemma ReadyCost(view: View, access: Access, order: seq<int>, loop: Symbol, anyFused: bool)
    requires Usable(view, access) && AllReadable(view, access, order) && Ready(view, access, order, loop, anyFused)
    ensures 0 <= CostOf(view, access, order, loop)
  {
  }

  lemma {:induction false} CostGrows(view: View, access: Access, order: seq<int>, loops: seq<Symbol>, i: nat, anyFused: bool)
    requires Usable(view, access) && AllReadable(view, access, order) && i <= |loops|
    requires forall loop :: loop in loops ==> Ready(view, access, order, loop, anyFused)
    ensures TotalCost(view, access, order, loops[..i]) <= TotalCost(view, access, order, loops)
    decreases |loops|
  {
    var n := |loops| - 1;
    if i == |loops| {
      assert loops[..i] == loops;
    } else {
      assert loops[..n][..i] == loops[..i] && loops[n] in loops;
      CostGrows(view, access, order, loops[..n], i, anyFused);
      ReadyCost(view, access, order, loops[n], anyFused);
    }
  }

  /** One loop, given what the earlier ones enumerate. */
  method ProveNext(view: View, access: Access, order: seq<int>, loop: Symbol, axes: seq<int>, states: int, anyFused: bool)
    returns (r: Result<(nat, LoopProof)>, states': int)
    requires Usable(view, access) && ListsSplits(view, order) && AllReadable(view, access, order)
    requires loop in LoopsOf(view, access, order) && axes == AxesFor(view, access, order, loop)
    requires states <= MAX_EXACT_OWNERSHIP_POINTS && forall c :: c in access.coords ==> Faithful(c)
    ensures r.Ok? <==> Ready(view, access, order, loop, anyFused) && states + CostOf(view, access, order, loop) <= MAX_EXACT_OWNERSHIP_POINTS
    ensures r.Ok? ==> states' == states + CostOf(view, access, order, loop)
    ensures r.Ok? ==> LoopRead(view, access, loop, axes, r.value.0, r.value.1.signatures, r.value.1.table)
    ensures r.Ok? && !anyFused ==> InOrder(r.value.1.signatures)
  {
    DrivenLists(view, access, order, loop);
    ListedReadable(view, access, loop, axes);
    r, states' := ReadLoop(view, access, loop, axes, states);
    if r.Ok? && Ready(view, access, order, loop, anyFused) {
      ghost var split, signatures, table :|
        LoopRead(view, access, loop, axes, split, signatures, table) && (anyFused || InOrder(signatures));
      SameRead(view, access, loop, axes, split, signatures, table, r.value.0, r.value.1.signatures, r.value.1.table);
    }
    if r.Ok? && !anyFused && !InOrder(r.value.1.signatures) {
      r := Err;
    }
  }

  lemma ProofsNext(view: View, access: Access, order: seq<int>, loops: seq<Symbol>, proofs: Proofs, loop: Symbol, p: (nat, LoopProof))
    requires Usable(view, access) && AllReadable(view, access, order) && ProofsHold(view, access, order, loops, proofs)
    requires loop !in loops
    requires LoopRead(view, access, loop, AxesFor(view, access, order, loop), p.0, p.1.signatures, p.1.table)
    ensures ProofsHold(view, access, order, loops + [loop], proofs[loop := p])
  {
    var longer := proofs[loop := p];
    forall other | other in loops + [loop] ensures ProofHolds(view, access, order, longer, other) {
      if other in loops {
        assert ProofHolds(view, access, order, proofs, other);
      }
    }
  }

  /** Every loop can be proved within the limits. */
  ghost predicate AllReady(view: View, access: Access, order: seq<int>, loops: seq<Symbol>, anyFused: bool)
    requires Usable(view, access) && AllReadable(view, access, order)
  {
    && (forall loop :: loop in loops ==> Ready(view, access, order, loop, anyFused))
    && TotalCost(view, access, order, loops) <= MAX_EXACT_OWNERSHIP_POINTS
  }

  ghost predicate Ordered(proofs: Proofs) {
    forall loop :: loop in proofs ==> InOrder(proofs[loop].1.signatures)
  }

  lemma NotReady(view: View, access: Access, order: seq<int>, loops: seq<Symbol>, i: nat, anyFused: bool)
    requires Usable(view, access) && AllReadable(view, access, order) && i < |loops|
    requires Ready(view, access, order, loops[i], anyFused) ==>
               TotalCost(view, access, order, loops[..i]) + CostOf(view, access, order, loops[i]) > MAX_EXACT_OWNERSHIP_POINTS
    ensures !AllReady(view, access, order, loops, anyFused)
  {
    if AllReady(view, access, order, loops, anyFused) {
      assert loops[i] in loops;
      CostNext(view, access, order, loops, i);
      CostGrows(view, access, order, loops, i + 1, anyFused);
    }
  }

  lemma CostNext(view: View, access: Access, order: seq<int>, loops: seq<Symbol>, i: nat)
    requires view.cores.Some? && AllReadable(view, access, order) && i < |loops|
    ensures TotalCost(view, access, order, loops[..i + 1])
         == TotalCost(view, access, order, loops[..i]) + CostOf(view, access, order, loops[i])
  {
    assert loops[..i + 1][..i] == loops[..i];
  }

  lemma AllReadyNext(view: View, access: Access, order: seq<int>, loops: seq<Symbol>, i: nat, anyFused: bool)
    requires Usable(view, access) && AllReadable(view, access, order) && i < |loops|
    requires AllReady(view, access, order, loops[..i], anyFused) && Ready(view, access, order, loops[i], anyFused)
    requires TotalCost(view, access, order, loops[..i]) + CostOf(view, access, order, loops[i]) <= MAX_EXACT_OWNERSHIP_POINTS
    ensures AllReady(view, access, order, loops[..i + 1], anyFused)
  {
    CostNext(view, access, order, loops, i);
    assert forall loop :: loop in loops[..i + 1] <==> loop in loops[..i] || loop == loops[i];
  }

  /** What is known after the first i loops. */
  ghost predicate ProvedUpTo(view: View, access: Access, order: seq<int>, loops: seq<Symbol>, anyFused: bool, proofs: Proofs,
                             states: int, i: nat)
    requires Usable(view, access) && AllReadable(view, access, order) && i <= |loops|
  {
    && AllReady(view, access, order, loops[..i], anyFused) && states == TotalCost(view, access, order, loops[..i])
    && ProofsHold(view, access, order, loops[..i], proofs) && (!anyFused ==> Ordered(proofs))
  }

  lemma ProvedNext(view: View, access: Access, order: seq<int>, loops: seq<Symbol>, anyFused: bool, proofs: Proofs,
                   states: int, i: nat, p: (nat, LoopProof))
    requires Usable(view, access) && AllReadable(view, access, order) && i < |loops| && Distinct(loops)
    requires ProvedUpTo(view, access, order, loops, anyFused, proofs, states, i)
    requires Ready(view, access, order, loops[i], anyFused)
    requires states + CostOf(view, access, order, loops[i]) <= MAX_EXACT_OWNERSHIP_POINTS
    requires LoopRead(view, access, loops[i], AxesFor(view, access, order, loops[i]), p.0, p.1.signatures, p.1.table)
    requires !anyFused ==> InOrder(p.1.signatures)
    ensures ProvedUpTo(view, access, order, loops, anyFused, proofs[loops[i] := p],
                       states + CostOf(view, access, order, loops[i]), i + 1)
  {
    AllReadyNext(view, access, order, loops, i, anyFused);
    CostNext(view, access, order, loops, i);
    ProofsNext(view, access, order, loops[..i], proofs, loops[i], p);
    assert loops[..i + 1] == loops[..i] + [loops[i]];
  }

  lemma ProvedNone(view: View, access: Access, order: seq<int>, loops: seq<Symbol>, anyFused: bool)
    requires Usable(view, access) && AllReadable(view, access, order)
    ensures ProvedUpTo(view, access, order, loops, anyFused, map[], 0, 0)
  {
  }

  lemma ProvedAll(view: View, access: Access, order: seq<int>, loops: seq<Symbol>, anyFused: bool, proofs: Proofs, states: int)
    requires Usable(view, access) && AllReadable(view, access, order)
    requires ProvedUpTo(view, access, order, loops, anyFused, proofs, states, |loops|)
    ensures AllReady(view, access, order, loops, anyFused) && ProofsHold(view, access, order, loops, proofs)
    ensures !anyFused ==> Ordered(proofs)
  {
    assert loops[..|loops|] == loops;
  }

  /** Prove loop i, or find that the loops cannot all be proved. */
  method ProveAt(view: View, access: Access, order: seq<int>, loops: seq<Symbol>, groups: map<Symbol, seq<int>>, anyFused: bool,
                 proofs: Proofs, states: int, i: nat)
    returns (r: Result<(Proofs, int)>)
    requires Usable(view, access) && ListsSplits(view, order) && Grouped(view, access, order, loops, groups)
    requires i < |loops| && Distinct(loops) && forall c :: c in access.coords ==> Faithful(c)
    requires ProvedUpTo(view, access, order, loops, anyFused, proofs, states, i)
    ensures r.Ok? ==> ProvedUpTo(view, access, order, loops, anyFused, r.value.0, r.value.1, i + 1)
    ensures r.Err? ==> !AllReady(view, access, order, loops, anyFused)
  {
    var loop := loops[i];
    FirstSeenAre(LoopKeys(view, access, order), loop);
    var proof, next := ProveNext(view, access, order, loop, groups[loop], states, anyFused);
    if proof.Err? {
      NotReady(view, access, order, loops, i, anyFused);
      return Err;
    }
    ProvedNext(view, access, order, loops, anyFused, proofs, states, i, proof.value);
    r := Ok((proofs[loop := proof.value], next));
  }

  method ProveLoops(view: View, access: Access, order: seq<int>, loops: seq<Symbol>, groups: map<Symbol, seq<int>>, anyFused: bool)
    returns (r: Result<Proofs>)
    requires Usable(view, access) && ListsSplits(view, order) && Grouped(view, access, order, loops, groups)
    requires forall c :: c in access.coords ==> Faithful(c)
    ensures r.Ok? <==> AllReady(view, access, order, loops, anyFused)
    ensures r.Ok? ==> ProofsHold(view, access, order, loops, r.value)
    ensures r.Ok? && !anyFused ==> Ordered(r.value)
  {
    var proofs: Proofs := map[];
    var states := 0;
    FirstSeenDistinct(LoopKeys(view, access, order));
    ProvedNone(view, access, order, loops, anyFused);
    for i := 0 to |loops|
      invariant ProvedUpTo(view, access, order, loops, anyFused, proofs, states, i)
    {
      var step := ProveAt(view, access, order, loops, groups, anyFused, proofs, states, i);
      if step.Err? {
        return Err;
      }
      proofs, states := step.value.0, step.value.1;
    }
    ProvedAll(view, access, order, loops, anyFused, proofs, states);
    r := Ok(proofs);
  }
}
