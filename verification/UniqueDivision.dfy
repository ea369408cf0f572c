/** The one canonical division that matches a tensor
    (`select_unique_partition_division` of `torch_spyre/_inductor/core_mapping.py`). */
module UniqueDivision {
  import opened Arith
  import opened Wrappers
  import opened Ownership
  import opened CoreMapping
  import opened PartitionMapping
  import opened OperationMapping

  /** `d` is the division the partition generator gives for one dimension order. */
  ghost predicate IsCandidate(d: Division, order: seq<Symbol>, splits: map<Symbol, nat>, cores: int) {
    && ListsAll(order, SplitDims(splits).Keys)
    && d.splits == splits && d.cores == cores && 0 < cores
    && d.owners.Keys == splits.Keys
    && Canonical(d.owners, order, splits, cores) && cores % Prod(SplitsOf(order, splits)) == 0
    && forall dim, c :: dim in splits && dim !in order ==> Eval(d.owners[dim], c) == 0
  }

  /** The caller's proof looks at the owners, not at how their formulas are spelt. */
  ghost predicate Extensional(matches: Division -> bool, splits: map<Symbol, nat>, cores: int) {
    forall d, order, d', order' ::
      (IsCandidate(d, order, splits, cores) && IsCandidate(d', order', splits, cores) && SameOwnership(d, d'))
      ==> matches(d) == matches(d')
  }

  lemma CandidatesAgree(d: Division, d': Division, order: seq<Symbol>, splits: map<Symbol, nat>, cores: int)
    requires IsCandidate(d, order, splits, cores) && IsCandidate(d', order, splits, cores)
    ensures SameOwnership(d, d')
  {
    forall dim | dim in SplitDims(splits) ensures SameSlot(d.owners[dim], d'.owners[dim], cores) {
      var k :| 0 <= k < |order| && order[k] == dim;
      assert forall c :: 0 <= c < cores ==> Eval(d.owners[order[k]], c) == Eval(d'.owners[order[k]], c);
    }
  }

  function KeepSplit(dims: seq<Symbol>, splits: map<Symbol, nat>): (kept: seq<Symbol>)
    ensures forall d :: d in kept <==> d in dims && SplitOf(splits, d) > 1
    ensures Distinct(dims) ==> Distinct(kept)
  {
    if dims == [] then []
    else (if SplitOf(splits, dims[0]) > 1 then [dims[0]] else []) + KeepSplit(dims[1..], splits)
  }

  /** The division for one order; a missing dimension is owned at slot 0. */
  method MakeCandidate(order: seq<Symbol>, splits: map<Symbol, nat>, cores: int) returns (r: Result<Division>)
    requires ListsAll(order, SplitDims(splits).Keys)
    ensures r.Ok? ==> IsCandidate(r.value, order, splits, cores)
    ensures r.Err? ==> forall d :: !IsCandidate(d, order, splits, cores)
  {
    var m := DerivePartitionMapping(order, SplitsOf(order, splits), cores);
    if m.Err? {
      return Err;
    }
    var owners := map d | d in splits :: if d in m.value then m.value[d] else Lit(0);
    forall k | 0 <= k < |order| ensures order[k] in owners && owners[order[k]] == m.value[order[k]] {
      assert order[k] in order;
    }
    r := Ok(Division(splits, owners, cores));
  }

  /** What the search has learnt from the orders tried so far. */
  ghost predicate Sole(accepted: Option<Division>, matches: Division -> bool, tried: seq<seq<Symbol>>,
                       splits: map<Symbol, nat>, cores: int)
  {
    forall d, order :: order in tried && IsCandidate(d, order, splits, cores) && matches(d) ==>
      accepted.Some? && SameOwnership(accepted.value, d)
  }

  lemma SameOwnershipTransitive(a: Division, b: Division, c: Division)
    requires SameOwnership(a, b) && SameOwnership(b, c)
    ensures SameOwnership(a, c)
  {
  }

  lemma SoleStep(accepted: Option<Division>, after: Option<Division>, matches: Division -> bool,
                 tried: seq<seq<Symbol>>, order: seq<Symbol>, candidate: Result<Division>,
                 splits: map<Symbol, nat>, cores: int)
    requires Extensional(matches, splits, cores) && Sole(accepted, matches, tried, splits, cores)
    requires candidate.Ok? ==> IsCandidate(candidate.value, order, splits, cores)
    requires candidate.Err? ==> forall d :: !IsCandidate(d, order, splits, cores)
    requires accepted.Some? ==> after == accepted
    requires candidate.Ok? && matches(candidate.value) ==>
               after.Some? && SameOwnership(after.value, candidate.value)
    ensures Sole(after, matches, tried + [order], splits, cores)
  {
    forall d, o | o in tried + [order] && IsCandidate(d, o, splits, cores) && matches(d)
      ensures after.Some? && SameOwnership(after.value, d)
    {
      if o !in tried {
        assert o == order;
        CandidatesAgree(candidate.value, d, order, splits, cores);
        SameOwnershipTransitive(after.value, candidate.value, d);
      }
    }
  }

  /** The search can begin: the split dimensions are all listed, there is one,
      and there are few enough. */
  predicate Searchable(dims: seq<Symbol>, splits: map<Symbol, nat>) {
    && 0 < |KeepSplit(dims, splits)| <= MAX_OWNER_PERMUTATION_DIMS
    && forall d <- splits :: splits[d] > 1 ==> d in dims
  }

  method SelectUniquePartitionDivision(dims: seq<Symbol>, splits: map<Symbol, nat>, cores: int,
                                       matches: Division -> bool)
    returns (r: Option<Division>)
    requires Distinct(dims)
    ensures r.Some? ==> Searchable(dims, splits) && matches(r.value)
                        && exists order :: IsCandidate(r.value, order, splits, cores)
    ensures r.Some? && Extensional(matches, splits, cores) ==>
              forall d, order :: IsCandidate(d, order, splits, cores) && matches(d) ==> SameOwnership(r.value, d)
    ensures r.None? && Extensional(matches, splits, cores) && Searchable(dims, splits) ==>
              || (forall d, order :: IsCandidate(d, order, splits, cores) ==> !matches(d))
              || (exists d, order, d', order' :: IsCandidate(d, order, splits, cores) && matches(d)
                    && IsCandidate(d', order', splits, cores) && matches(d') && !SameOwnership(d, d'))
  {
    var kept := KeepSplit(dims, splits);
    if !Searchable(dims, splits) {
      return None;
    }
    var orders := Permutations(kept);
    var accepted: Option<Division> := None;
    for i := 0 to |orders|
      invariant accepted.Some? ==> matches(accepted.value)
      invariant accepted.Some? ==> exists order :: IsCandidate(accepted.value, order, splits, cores)
      invariant Extensional(matches, splits, cores) ==> Sole(accepted, matches, orders[..i], splits, cores)
    {
      PermutationFacts(kept, orders[i]);
      var candidate := MakeCandidate(orders[i], splits, cores);
      ghost var before := accepted;
      if candidate.Ok? && matches(candidate.value) {
        if accepted.None? {
          accepted := Some(candidate.value);
        } else if !SameOwnership(accepted.value, candidate.value) {
          ghost var order :| IsCandidate(accepted.value, order, splits, cores);
          assert IsCandidate(candidate.value, orders[i], splits, cores);
          return None;
        }
      }
      if Extensional(matches, splits, cores) {
        SoleStep(before, accepted, matches, orders[..i], orders[i], candidate, splits, cores);
        assert orders[..i] + [orders[i]] == orders[..i + 1];
      }
    }
    r := accepted;
    forall d, order | IsCandidate(d, order, splits, cores) ensures order in orders {
      ListingsPermute(kept, order);
      PermutationsComplete(kept, order);
    }
    assert orders[..|orders|] == orders;
  }
}
