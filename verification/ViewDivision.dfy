/** The loop ownership that a view's slices induce, and exactly when there is one
    (`work_division_from_view` of `torch_spyre/_inductor/core_mapping.py`). */
module ViewDivision {
  import opened Arith
  import opened Wrappers
  import opened Ownership
  import opened UniqueDivision
  import opened LoopProofs
  import opened ViewOwnership
  import opened ViewReading
  import opened ViewProofs

  /** The division owns one loop as the proof of its listed axes demands. */
  ghost predicate ListedRead(view: View, access: Access, order: seq<int>, d: Division, loop: Symbol)
    requires Usable(view, access) && AllReadable(view, access, order)
  {
    && loop in d.splits && loop in d.owners
    && exists signatures, table ::
         && LoopRead(view, access, loop, AxesFor(view, access, order, loop), d.splits[loop], signatures, table)
         && Follows(d.owners[loop], table)
  }

  ghost predicate ReadsListed(view: View, access: Access, order: seq<int>, d: Division)
    requires Usable(view, access) && AllReadable(view, access, order)
  {
    && view.cores == Some(d.cores)
    && (forall loop :: loop in d.splits <==> loop in LoopsOf(view, access, order))
    && forall loop {:trigger ListedRead(view, access, order, d, loop)} :: loop in LoopsOf(view, access, order) ==>
         ListedRead(view, access, order, d, loop)
  }

  /** Some loop drives several split axes. */
  ghost predicate AnyFused(view: View, access: Access, order: seq<int>)
    requires AllReadable(view, access, order)
  {
    exists loop :: loop in LoopsOf(view, access, order) && |AxesFor(view, access, order, loop)| > 1
  }

  /** The owners are spelt as the compiler can emit them: the axes' own formulas, or one
      canonical division when a loop is fused. */
  ghost predicate Spelled(view: View, access: Access, order: seq<int>, loops: seq<Symbol>, d: Division)
    requires Usable(view, access) && AllReadable(view, access, order)
  {
    if AnyFused(view, access, order) then
      Searchable(KeepLoops(loops, d.splits), d.splits) && exists o :: IsCandidate(d, o, d.splits, d.cores)
    else
      d.owners.Keys == d.splits.Keys && forall loop :: loop in d.splits ==> OwnFormula(view, access, order, d.owners, loop)
  }

  ghost predicate OwnFormula(view: View, access: Access, order: seq<int>, owners: SlotMap, loop: Symbol)
    requires AllReadable(view, access, order)
  {
    var axes := AxesFor(view, access, order, loop);
    axes != [] && axes[0] in view.slots && loop in owners && owners[loop] == view.slots[axes[0]]
  }

  function KeepLoops(loops: seq<Symbol>, splits: map<Symbol, nat>): (kept: seq<Symbol>)
    ensures forall d :: d in kept <==> d in loops && d in splits
    ensures Distinct(loops) ==> Distinct(kept)
  {
    if loops == [] then []
    else (if loops[0] in splits then [loops[0]] else []) + KeepLoops(loops[1..], splits)
  }

  lemma ListedReadsView(view: View, access: Access, order: seq<int>, d: Division)
    requires Usable(view, access) && ListsSplits(view, order) && AllReadable(view, access, order)
    requires ReadsListed(view, access, order, d)
    ensures ReadsView(view, access, d)
  {
    forall a | a in view.splits ensures LoopOf(view, access, a) in d.splits {
      DrivenBy(view, access, order, a);
    }
    forall loop | loop in d.splits ensures ReadsLoop(view, access, d, loop) {
      assert ListedRead(view, access, order, d, loop);
    }
  }

  /** Owners that reproduce the table of every loop. */
  predicate FollowsAll(owners: SlotMap, proofs: Proofs) {
    forall loop <- proofs :: loop in owners && Follows(owners[loop], proofs[loop].1.table)
  }

  function SplitsOfProofs(proofs: Proofs): map<Symbol, nat> {
    map loop | loop in proofs :: proofs[loop].0
  }

  /** A division that reads the view has the proved splits and owners. */
  lemma ReadsFollows(view: View, access: Access, order: seq<int>, proofs: Proofs, d: Division)
    requires Usable(view, access) && AllReadable(view, access, order) && ReadsListed(view, access, order, d)
    requires ProofsHold(view, access, order, LoopsOf(view, access, order), proofs)
    ensures d.splits == SplitsOfProofs(proofs) && FollowsAll(d.owners, proofs)
  {
    forall loop | loop in proofs
      ensures loop in d.splits && d.splits[loop] == proofs[loop].0
      ensures loop in d.owners && Follows(d.owners[loop], proofs[loop].1.table)
    {
      ListedFollows(view, access, order, proofs, d, loop);
    }
  }

  lemma ListedFollows(view: View, access: Access, order: seq<int>, proofs: Proofs, d: Division, loop: Symbol)
    requires Usable(view, access) && AllReadable(view, access, order) && ReadsListed(view, access, order, d)
    requires ProofsHold(view, access, order, LoopsOf(view, access, order), proofs) && loop in proofs
    ensures loop in d.splits && d.splits[loop] == proofs[loop].0
    ensures loop in d.owners && Follows(d.owners[loop], proofs[loop].1.table)
  {
    assert ProofHolds(view, access, order, proofs, loop) && ListedRead(view, access, order, d, loop);
    ReadFollows(view, access, order, proofs, d, loop);
  }

  /** Conversely, these read the view. */
  lemma FollowsReads(view: View, access: Access, order: seq<int>, proofs: Proofs, d: Division)
    requires Usable(view, access) && AllReadable(view, access, order) && view.cores == Some(d.cores)
    requires ProofsHold(view, access, order, LoopsOf(view, access, order), proofs)
    requires d.splits == SplitsOfProofs(proofs) && FollowsAll(d.owners, proofs)
    ensures ReadsListed(view, access, order, d)
  {
    forall loop | loop in LoopsOf(view, access, order) ensures ListedRead(view, access, order, d, loop) {
      assert ProofHolds(view, access, order, proofs, loop);
    }
  }

  lemma ReadFollows(view: View, access: Access, order: seq<int>, proofs: Proofs, d: Division, loop: Symbol)
    requires Usable(view, access) && AllReadable(view, access, order)
    requires ProofHolds(view, access, order, proofs, loop) && ListedRead(view, access, order, d, loop)
    ensures d.splits[loop] == proofs[loop].0 && Follows(d.owners[loop], proofs[loop].1.table)
  {
    var axes := AxesFor(view, access, order, loop);
    var signatures, table :|
      LoopRead(view, access, loop, axes, d.splits[loop], signatures, table) && Follows(d.owners[loop], table);
    SameRead(view, access, loop, axes, d.splits[loop], signatures, table, proofs[loop].0, proofs[loop].1.signatures,
             proofs[loop].1.table);
  }

  // --- Canonical candidates ---

  /** Two candidates with the same owners agree on every loop, split or not. */
  lemma CandidatesEqual(d: Division, o: seq<Symbol>, d': Division, o': seq<Symbol>, splits: map<Symbol, nat>, cores: int,
                        loop: Symbol, c: int)
    requires IsCandidate(d, o, splits, cores) && IsCandidate(d', o', splits, cores) && SameOwnership(d, d')
    requires loop in splits && 0 <= c < cores
    ensures loop in d.owners && loop in d'.owners && Eval(d.owners[loop], c) == Eval(d'.owners[loop], c)
  {
    if splits[loop] > 1 {
      assert SameSlot(d.owners[loop], d'.owners[loop], cores);
    } else {
      assert loop !in o && loop !in o';
    }
  }

  ghost predicate TablesFit(proofs: Proofs, cores: int) {
    forall loop :: loop in proofs ==> |proofs[loop].1.table| == cores
  }

  lemma MatchExtensional(proofs: Proofs, cores: int)
    requires TablesFit(proofs, cores)
    ensures Extensional((d: Division) => FollowsAll(d.owners, proofs), SplitsOfProofs(proofs), cores)
  {
    var splits := SplitsOfProofs(proofs);
    forall d, o, d', o' | IsCandidate(d, o, splits, cores) && IsCandidate(d', o', splits, cores) && SameOwnership(d, d')
      ensures FollowsAll(d.owners, proofs) == FollowsAll(d'.owners, proofs)
    {
      forall loop, c | loop in proofs && 0 <= c < cores ensures Eval(d.owners[loop], c) == Eval(d'.owners[loop], c) {
        CandidatesEqual(d, o, d', o', splits, cores, loop, c);
      }
    }
  }

  /** Candidates that reproduce the tables own alike. */
  lemma MatchesAgree(proofs: Proofs, cores: int, d: Division, o: seq<Symbol>, d': Division, o': seq<Symbol>)
    requires TablesFit(proofs, cores)
    requires IsCandidate(d, o, SplitsOfProofs(proofs), cores) && IsCandidate(d', o', SplitsOfProofs(proofs), cores)
    requires FollowsAll(d.owners, proofs) && FollowsAll(d'.owners, proofs)
    ensures SameOwnership(d, d')
  {
    var splits := SplitsOfProofs(proofs);
    forall loop | loop in SplitDims(splits) ensures SameSlot(d.owners[loop], d'.owners[loop], cores) {
      assert loop in proofs;
      forall c | 0 <= c < cores ensures Eval(d.owners[loop], c) == Eval(d'.owners[loop], c) {
        assert Eval(d.owners[loop], c) == proofs[loop].1.table[c];
      }
    }
  }

  // --- Naming the owners ---

  lemma ProofTables(view: View, access: Access, order: seq<int>, proofs: Proofs)
    requires Usable(view, access) && AllReadable(view, access, order)
    requires ProofsHold(view, access, order, LoopsOf(view, access, order), proofs)
    ensures TablesFit(proofs, view.cores.value)
  {
    forall loop | loop in proofs ensures |proofs[loop].1.table| == view.cores.value {
      assert ProofHolds(view, access, order, proofs, loop);
    }
  }

  /** Without fused loops the axes' own formulas read the view. */
  lemma DirectReads(view: View, access: Access, order: seq<int>, proofs: Proofs, d: Division)
    requires Usable(view, access) && ListsSplits(view, order) && AllReadable(view, access, order)
    requires ProofsHold(view, access, order, LoopsOf(view, access, order), proofs) && Ordered(proofs)
    requires !AnyFused(view, access, order) && view.cores == Some(d.cores) && d.splits == SplitsOfProofs(proofs)
    requires d.owners.Keys == d.splits.Keys && forall loop :: loop in d.splits ==> OwnFormula(view, access, order, d.owners, loop)
    ensures ReadsListed(view, access, order, d)
  {
    forall loop | loop in proofs ensures Follows(d.owners[loop], proofs[loop].1.table) {
      assert ProofHolds(view, access, order, proofs, loop);
      DirectOwner(view, access, order, proofs, d, loop);
    }
    FollowsReads(view, access, order, proofs, d);
  }

  lemma DirectOwner(view: View, access: Access, order: seq<int>, proofs: Proofs, d: Division, loop: Symbol)
    requires Usable(view, access) && ListsSplits(view, order) && AllReadable(view, access, order)
    requires loop in LoopsOf(view, access, order) && !AnyFused(view, access, order)
    requires ProofHolds(view, access, order, proofs, loop) && InOrder(proofs[loop].1.signatures)
    requires loop in d.owners && OwnFormula(view, access, order, d.owners, loop)
    ensures Follows(d.owners[loop], proofs[loop].1.table)
  {
    var axes := AxesFor(view, access, order, loop);
    DrivenCosted(view, access, order, loop);
    DirectFollows(view, access, loop, axes, proofs[loop].0, proofs[loop].1.signatures, proofs[loop].1.table);
  }

  /** A division reads the view and is spelt as the compiler can emit it. */
  ghost predicate Induced(view: View, access: Access, order: seq<int>, loops: seq<Symbol>, d: Division)
    requires Usable(view, access) && AllReadable(view, access, order)
  {
    ReadsListed(view, access, order, d) && Spelled(view, access, order, loops, d)
  }

  lemma GroupFirst(view: View, access: Access, order: seq<int>, driven: seq<Symbol>, groups: map<Symbol, seq<int>>, loop: Symbol)
    requires Usable(view, access) && ListsSplits(view, order) && Grouped(view, access, order, driven, groups) && loop in driven
    ensures loop in groups && groups[loop] == AxesFor(view, access, order, loop) != [] && groups[loop][0] in view.slots
  {
    DrivenCosted(view, access, order, loop);
    FirstSeenAre(LoopKeys(view, access, order), loop);
  }

  lemma DirectInduced(view: View, access: Access, order: seq<int>, loops: seq<Symbol>, proofs: Proofs, d: Division)
    requires Usable(view, access) && ListsSplits(view, order) && AllReadable(view, access, order)
    requires ProofsHold(view, access, order, LoopsOf(view, access, order), proofs) && Ordered(proofs)
    requires !AnyFused(view, access, order) && view.cores == Some(d.cores) && d.splits == SplitsOfProofs(proofs)
    requires d.owners.Keys == proofs.Keys && forall loop :: loop in proofs ==> OwnFormula(view, access, order, d.owners, loop)
    ensures Induced(view, access, order, loops, d)
  {
    DirectReads(view, access, order, proofs, d);
  }

  method NameDirect(view: View, access: Access, order: seq<int>, ghost driven: seq<Symbol>, groups: map<Symbol, seq<int>>,
                    proofs: Proofs, ghost loops: seq<Symbol>)
    returns (d: Division)
    requires Usable(view, access) && ListsSplits(view, order) && Grouped(view, access, order, driven, groups)
    requires ProofsHold(view, access, order, driven, proofs) && Ordered(proofs) && !AnyFused(view, access, order)
    ensures Induced(view, access, order, loops, d)
  {
    var owners := OwnFormulas(view, access, order, driven, groups);
    d := Division(map loop | loop in proofs :: proofs[loop].0, owners, view.cores.value);
    DirectInduced(view, access, order, loops, proofs, d);
  }

  method OwnFormulas(view: View, access: Access, ghost order: seq<int>, ghost driven: seq<Symbol>, groups: map<Symbol, seq<int>>)
    returns (owners: SlotMap)
    requires Usable(view, access) && ListsSplits(view, order) && Grouped(view, access, order, driven, groups)
    ensures forall loop :: loop in owners <==> loop in driven
    ensures forall loop :: loop in driven ==> OwnFormula(view, access, order, owners, loop)
  {
    forall loop | loop in groups
      ensures loop in driven && groups[loop] == AxesFor(view, access, order, loop) != [] && groups[loop][0] in view.slots
    {
      FirstSeenAre(LoopKeys(view, access, order), loop);
      GroupFirst(view, access, order, driven, groups, loop);
    }
    owners := map loop | loop in groups :: view.slots[groups[loop][0]];
    forall loop | loop in driven ensures loop in groups {
      GroupFirst(view, access, order, driven, groups, loop);
    }
  }

  method NameFused(view: View, access: Access, order: seq<int>, loops: seq<Symbol>, ghost driven: seq<Symbol>, proofs: Proofs)
    returns (r: Option<Division>)
    requires Usable(view, access) && AllReadable(view, access, order) && driven == LoopsOf(view, access, order)
    requires ProofsHold(view, access, order, driven, proofs) && AnyFused(view, access, order) && Distinct(loops)
    ensures r.Some? ==> Induced(view, access, order, loops, r.value)
    ensures r.None? ==> forall d :: !Induced(view, access, order, loops, d)
  {
    var splits, cores := map loop | loop in proofs :: proofs[loop].0, view.cores.value;
    assert splits == SplitsOfProofs(proofs);
    ProofTables(view, access, order, proofs);
    MatchExtensional(proofs, cores);
    r := SelectUniquePartitionDivision(KeepLoops(loops, splits), splits, cores, (d: Division) => FollowsAll(d.owners, proofs));
    if r.Some? {
      FollowsReads(view, access, order, proofs, r.value);
    } else {
      forall d ensures !Induced(view, access, order, loops, d) {
        if Induced(view, access, order, loops, d) {
          ReadsFollows(view, access, order, proofs, d);
          var o :| IsCandidate(d, o, splits, cores);
          forall a, oa, b, ob | IsCandidate(a, oa, splits, cores) && FollowsAll(a.owners, proofs)
                                && IsCandidate(b, ob, splits, cores) && FollowsAll(b.owners, proofs)
            ensures SameOwnership(a, b)
          {
            MatchesAgree(proofs, cores, a, oa, b, ob);
          }
        }
      }
    }
  }

  // --- Acceptance ---

  /** The view can be read within the limits, and some division is induced by it. */
  ghost predicate Accepted(view: View, access: Access, order: seq<int>, loops: seq<Symbol>) {
    && Usable(view, access) && AllReadable(view, access, order)
    && (forall loop :: loop in LoopsOf(view, access, order) ==> WithinPoints(view, access, order, loop))
    && TotalCost(view, access, order, LoopsOf(view, access, order)) <= MAX_EXACT_OWNERSHIP_POINTS
    && exists d :: Induced(view, access, order, loops, d)
  }

  predicate WithinPoints(view: View, access: Access, order: seq<int>, loop: Symbol)
    requires AllReadable(view, access, order)
  {
    Costed(view, access, order, loop) && DirectFits(view, access, AxesFor(view, access, order, loop))
  }

  /** An induced division shows that every loop can be proved. */
  lemma InducedReady(view: View, access: Access, order: seq<int>, loops: seq<Symbol>, d: Division, loop: Symbol)
    requires Usable(view, access) && ListsSplits(view, order) && AllReadable(view, access, order)
    requires Induced(view, access, order, loops, d) && loop in LoopsOf(view, access, order)
    requires WithinPoints(view, access, order, loop)
    ensures Ready(view, access, order, loop, AnyFused(view, access, order))
  {
    var axes := AxesFor(view, access, order, loop);
    assert ListedRead(view, access, order, d, loop);
    var signatures, table :|
      LoopRead(view, access, loop, axes, d.splits[loop], signatures, table) && Follows(d.owners[loop], table);
    if !AnyFused(view, access, order) {
      assert OwnFormula(view, access, order, d.owners, loop);
      DirectFollows(view, access, loop, axes, d.splits[loop], signatures, table);
    }
  }

  lemma AcceptedReady(view: View, access: Access, order: seq<int>, loops: seq<Symbol>)
    requires ListsSplits(view, order) && Accepted(view, access, order, loops)
    ensures AllReady(view, access, order, LoopsOf(view, access, order), AnyFused(view, access, order))
  {
    var d :| Induced(view, access, order, loops, d);
    forall loop | loop in LoopsOf(view, access, order) ensures Ready(view, access, order, loop, AnyFused(view, access, order)) {
      InducedReady(view, access, order, loops, d, loop);
    }
  }

  lemma ReadyWithin(view: View, access: Access, order: seq<int>, loops: seq<Symbol>, anyFused: bool)
    requires Usable(view, access) && AllReadable(view, access, order) && AllReady(view, access, order, loops, anyFused)
    ensures forall loop :: loop in loops ==> WithinPoints(view, access, order, loop)
  {
    forall loop | loop in loops ensures WithinPoints(view, access, order, loop) {
      assert Ready(view, access, order, loop, anyFused);
    }
  }

  /** Once the axes are grouped: prove the loops, then name the owners. */
  method DivideGrouped(view: View, access: Access, order: seq<int>, loops: seq<Symbol>, driven: seq<Symbol>,
                       groups: map<Symbol, seq<int>>)
    returns (r: Result<Division>)
    requires Usable(view, access) && ListsSplits(view, order) && Grouped(view, access, order, driven, groups)
    requires Distinct(loops) && forall c :: c in access.coords ==> Faithful(c)
    ensures r.Ok? <==> Accepted(view, access, order, loops)
    ensures r.Ok? ==> Induced(view, access, order, loops, r.value)
  {
    var anyFused := exists loop <- groups :: |groups[loop]| > 1;
    FusedGroups(view, access, order, driven, groups);
    if Accepted(view, access, order, loops) {
      AcceptedReady(view, access, order, loops);
    }
    var proofs := ProveLoops(view, access, order, driven, groups, anyFused);
    if proofs.Err? {
      return Err;
    }
    ReadyWithin(view, access, order, driven, anyFused);
    if !anyFused {
      var d := NameDirect(view, access, order, driven, groups, proofs.value, loops);
      return Ok(d);
    }
    var candidate := NameFused(view, access, order, loops, driven, proofs.value);
    if candidate.None? {
      return Err;
    }
    r := Ok(candidate.value);
  }

  lemma FusedGroups(view: View, access: Access, order: seq<int>, driven: seq<Symbol>, groups: map<Symbol, seq<int>>)
    requires Grouped(view, access, order, driven, groups)
    ensures (exists loop :: loop in groups && |groups[loop]| > 1) <==> AnyFused(view, access, order)
  {
    forall loop ensures loop in groups <==> loop in LoopsOf(view, access, order) {
      FirstSeenAre(LoopKeys(view, access, order), loop);
    }
  }

  /** The loop ownership that a view's slices induce; owners are read, never invented.
      `order` lists the split axes as the view does. */
  method WorkDivisionFromView(maybe: Option<View>, access: Access, order: seq<int>, loops: seq<Symbol>)
    returns (r: Result<Option<Division>>)
    requires Distinct(loops) && access.extents.Keys == set d | d in loops
    requires maybe.Some? ==> ListsSplits(maybe.value, order)
    requires forall c :: c in access.coords ==> Faithful(c)
    ensures maybe.None? ==> r == Ok(None)
    ensures maybe.Some? ==> (r.Ok? <==> Accepted(maybe.value, access, order, loops))
    ensures r.Ok? && maybe.Some? ==> r.value.Some? && Induced(maybe.value, access, order, loops, r.value.value)
    ensures r.Ok? && maybe.Some? ==> ReadsView(maybe.value, access, r.value.value)
    ensures r.Ok? && maybe.Some? ==> StaysInside(maybe.value, access, r.value.value)
    ensures r.Ok? && maybe.Some? ==> EveryPartitionOwned(r.value.value)
  {
    if maybe.None? {
      return Ok(None);
    }
    var view := maybe.value;
    if view.cores.None? || view.cores.value <= 0 || |access.sizes| != |access.coords| {
      return Err;
    }
    if !SlotsInside(view.slots, view.splits, view.cores.value) {
      return Err;
    }
    var groups := GroupAxes(view, access, order);
    if groups.Err? {
      return Err;
    }
    AllListed(view, access, order);
    var d := DivideGrouped(view, access, order, loops, groups.value.0, groups.value.1);
    if d.Err? {
      return Err;
    }
    ListedReadsView(view, access, order, d.value);
    ReadStaysInside(view, access, d.value);
    ReadOwnsPartitions(view, access, d.value);
    r := Ok(Some(d.value));
  }
}
