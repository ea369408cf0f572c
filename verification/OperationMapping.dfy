/** The operation mapping that must respect every tensor owner
    (`derive_operation_mapping` of `torch_spyre/_inductor/core_mapping.py`). */
module OperationMapping {
  import opened Arith
  import opened Radix
  import opened Wrappers
  import opened Ownership
  import opened CoreMapping
  import opened PartitionMapping

  predicate FitsAt(division: Division, splitBy: map<Symbol, nat>, d: Symbol)
    requires d in division.splits
  {
    division.splits[d] > 1 ==> d in splitBy && splitBy[d] == division.splits[d] && d in division.owners
  }

  predicate HonoursAt(m: SlotMap, division: Division, cores: int, d: Symbol)
    requires d in division.splits
  {
    division.splits[d] > 1 ==> d in m && d in division.owners && SameSlot(m[d], division.owners[d], cores)
  }

  /** The division lives on the operation's cores and splits its loops alike. */
  predicate Fits(division: Division, splitBy: map<Symbol, nat>, cores: int) {
    && division.cores == cores
    && forall d <- division.splits :: FitsAt(division, splitBy, d)
  }

  /** The mapping gives every core the slots the tensor owner gives it. */
  predicate Honours(m: SlotMap, division: Division, cores: int) {
    forall d <- division.splits :: HonoursAt(m, division, cores, d)
  }

  ghost predicate HonoursAll(m: SlotMap, divisions: seq<Option<Division>>, splitBy: map<Symbol, nat>, cores: int) {
    forall i :: 0 <= i < |divisions| && divisions[i].Some? ==>
      Fits(divisions[i].value, splitBy, cores) && Honours(m, divisions[i].value, cores)
  }

  /** The two mappings agree wherever the first is defined. */
  predicate Within(m: SlotMap, whole: SlotMap, cores: int) {
    forall d <- m :: d in whole && SameSlot(m[d], whole[d], cores)
  }

  ghost predicate Extends(m: SlotMap, m': SlotMap) {
    m.Keys <= m'.Keys && forall d :: d in m ==> m'[d] == m[d]
  }

  ghost function ConstrainedDims(divisions: seq<Option<Division>>): set<Symbol> {
    if divisions == [] then {}
    else ConstrainedDims(divisions[..|divisions| - 1])
         + var last := divisions[|divisions| - 1];
           if last.Some? then SplitDims(last.value.splits).Keys else {}
  }

  /** One tensor's owners join the constraints. `whole` is any mapping that would
      honour everything: then the owners cannot conflict. */
  method AddOwners(constrained: SlotMap, division: Division, splitBy: map<Symbol, nat>, cores: int, ghost whole: SlotMap)
    returns (r: Result<SlotMap>)
    requires division.cores == cores
    ensures r.Ok? ==> Fits(division, splitBy, cores) && Honours(r.value, division, cores)
    ensures r.Ok? ==> Extends(constrained, r.value)
    ensures r.Ok? ==> r.value.Keys == constrained.Keys + SplitDims(division.splits).Keys
    ensures (0 < cores && Fits(division, splitBy, cores) && Honours(whole, division, cores)
             && Within(constrained, whole, cores)) ==> r.Ok? && Within(r.value, whole, cores)
  {
    var m, todo := constrained, division.splits.Keys;
    while todo != {}
      invariant todo <= division.splits.Keys
      invariant Extends(constrained, m)
      invariant m.Keys == constrained.Keys + (SplitDims(division.splits).Keys - todo)
      invariant forall d :: d in division.splits.Keys - todo ==>
                  FitsAt(division, splitBy, d) && HonoursAt(m, division, cores, d)
      invariant Honours(whole, division, cores) && Within(constrained, whole, cores) ==> Within(m, whole, cores)
    {
      var d :| d in todo;
      if !FitsAt(division, splitBy, d) {
        return Err;
      }
      if division.splits[d] > 1 {
        ghost var before := m;
        if d !in m {
          m := m[d := division.owners[d]];
        }
        assert Honours(whole, division, cores) ==> HonoursAt(whole, division, cores, d);
        if cores <= 0 || !SameSlot(m[d], division.owners[d], cores) {
          return Err;
        }
        StillHonours(before, m, division, cores, todo);
      }
      todo := todo - {d};
    }
    r := Ok(m);
  }

  lemma StillHonours(m: SlotMap, m': SlotMap, division: Division, cores: int, todo: set<Symbol>)
    requires Extends(m, m')
    requires forall d :: d in division.splits.Keys - todo ==> HonoursAt(m, division, cores, d)
    ensures forall d :: d in division.splits.Keys - todo ==> HonoursAt(m', division, cores, d)
  {
  }

  method CollectOwners(divisions: seq<Option<Division>>, splitBy: map<Symbol, nat>, cores: int, ghost whole: SlotMap)
    returns (r: Result<SlotMap>)
    ensures r.Ok? ==> HonoursAll(r.value, divisions, splitBy, cores)
    ensures r.Ok? ==> r.value.Keys == ConstrainedDims(divisions)
    ensures 0 < cores && HonoursAll(whole, divisions, splitBy, cores) ==> r.Ok? && Within(r.value, whole, cores)
  {
    var m := map[];
    for i := 0 to |divisions|
      invariant HonoursAll(m, divisions[..i], splitBy, cores)
      invariant m.Keys == ConstrainedDims(divisions[..i])
      invariant 0 < cores && HonoursAll(whole, divisions, splitBy, cores) ==> Within(m, whole, cores)
    {
      assert divisions[..i + 1][..i] == divisions[..i];
      if divisions[i].Some? {
        if divisions[i].value.cores != cores {
          return Err;
        }
        var next := AddOwners(m, divisions[i].value, splitBy, cores, whole);
        if next.Err? {
          return Err;
        }
        m := next.value;
      }
    }
    assert divisions[..|divisions|] == divisions;
    r := Ok(m);
  }

  /** A derived order is the dimensions inside one group, then the groups. */
  lemma GroupOrder(dims: seq<Symbol>, splitBy: map<Symbol, nat>, contiguous: Option<Symbol>, order: seq<Symbol>)
    returns (inner: seq<Symbol>)
    requires Distinct(dims) && Distinct(order)
    requires forall d :: d in order ==> d in dims
    ensures inner + order == DerivedOrder(dims, splitBy, contiguous, order)
    ensures SplitsOf(inner + order, splitBy) == SplitsOf(inner, splitBy) + SplitsOf(order, splitBy)
    ensures Prod(SplitsOf(dims, splitBy)) == Prod(SplitsOf(inner, splitBy)) * Prod(SplitsOf(order, splitBy))
  {
    var local := LocalDims(dims, order);
    inner := Arranged(local, SplitsOf(local, splitBy), IndexIn(local, contiguous));
    DerivedOrderPermutes(dims, splitBy, contiguous, order);
    SplitsPermute(inner + order, dims, splitBy);
    ProdPermutation(SplitsOf(inner + order, splitBy), SplitsOf(dims, splitBy));
    SplitsOfConcat(inner, order, splitBy);
    ProdConcat(SplitsOf(inner, splitBy), SplitsOf(order, splitBy));
  }

  lemma OuterCanonical(m: SlotMap, inner: seq<Symbol>, order: seq<Symbol>, splitBy: map<Symbol, nat>, cores: nat)
    requires IsRadixMap(m, inner + order, SplitsOf(inner, splitBy) + SplitsOf(order, splitBy))
    requires cores == Prod(SplitsOf(inner, splitBy)) * Prod(SplitsOf(order, splitBy)) && 0 < cores
    ensures Canonical(m, order, splitBy, cores)
  {
    var innerSplits, splits := SplitsOf(inner, splitBy), SplitsOf(order, splitBy);
    GroupCounts(cores, Prod(splits), Prod(innerSplits));
    ProdPositive(innerSplits);
    ProdPositive(splits);
    MulMono(1, Prod(innerSplits), Prod(splits));
    forall k | 0 <= k < |order|
      ensures order[k] in m
      ensures forall c :: Eval(m[order[k]], c) == GroupSlot(splits, cores, k, c)
    {
      OuterDigits(m, inner, innerSplits, order, splits, 0);
      forall c ensures Eval(m[order[k]], c) == GroupSlot(splits, cores, k, c) {
        OuterDigits(m, inner, innerSplits, order, splits, c);
      }
    }
  }

  /** The group dimensions of a derived mapping read the group number. */
  lemma DerivedGroupSlots(m: SlotMap, dims: seq<Symbol>, splitBy: map<Symbol, nat>, contiguous: Option<Symbol>,
                          order: seq<Symbol>, cores: nat)
    requires Distinct(dims) && Distinct(order)
    requires forall d :: d in order ==> d in dims
    requires IsDerived(m, dims, splitBy, contiguous, order)
    requires 0 < cores == Prod(SplitsOf(dims, splitBy))
    ensures Canonical(m, order, splitBy, cores)
  {
    var inner := GroupOrder(dims, splitBy, contiguous, order);
    OuterCanonical(m, inner, order, splitBy, cores);
  }

  /** On the dimensions of `order`, `m` is the grouped mapping in that order. */
  ghost predicate Canonical(m: SlotMap, order: seq<Symbol>, splitBy: map<Symbol, nat>, cores: nat) {
    var splits := SplitsOf(order, splitBy);
    && 0 < Prod(splits) <= cores
    && (forall k :: 0 <= k < |order| ==> order[k] in m)
    && forall k, c :: 0 <= k < |order| && 0 <= c < cores ==>
         Eval(m[order[k]], c) == GroupSlot(splits, cores, k, c)
  }

  lemma CanonicalAgree(m: SlotMap, m': SlotMap, order: seq<Symbol>, splitBy: map<Symbol, nat>, cores: nat)
    requires Canonical(m, order, splitBy, cores) && Canonical(m', order, splitBy, cores)
    requires forall d :: d in m ==> d in order
    ensures Within(m, m', cores)
  {
    forall d | d in m ensures d in m' && SameSlot(m[d], m'[d], cores) {
      var k :| 0 <= k < |order| && order[k] == d;
      assert forall c :: 0 <= c < cores ==> Eval(m[order[k]], c) == Eval(m'[order[k]], c);
    }
  }

  lemma WithinCanonical(m: SlotMap, whole: SlotMap, order: seq<Symbol>, splitBy: map<Symbol, nat>, cores: nat)
    requires Within(m, whole, cores) && Canonical(whole, order, splitBy, cores)
    requires forall d :: d in order ==> d in m
    ensures Canonical(m, order, splitBy, cores)
  {
  }

  /** All tensor owners follow one group order over at most five dimensions. */
  ghost predicate CanonicalOwners(divisions: seq<Option<Division>>, whole: SlotMap, order: seq<Symbol>,
                                  splitBy: map<Symbol, nat>, cores: int)
  {
    && 0 < cores
    && HonoursAll(whole, divisions, splitBy, cores)
    && Distinct(order) && |order| <= MAX_OWNER_PERMUTATION_DIMS
    && (forall d :: d in order <==> d in ConstrainedDims(divisions))
    && Canonical(whole, order, splitBy, cores)
  }

  lemma ListingsPermute(l: seq<Symbol>, order: seq<Symbol>)
    requires Distinct(l) && Distinct(order)
    requires forall d :: d in l <==> d in order
    ensures multiset(l) == multiset(order)
  {
    DistinctMultiset(l);
    DistinctMultiset(order);
    forall d ensures multiset(l)[d] == multiset(order)[d] {
      assert d in l <==> multiset(l)[d] > 0;
      assert d in order <==> multiset(order)[d] > 0;
      assert multiset(l)[d] <= 1 && multiset(order)[d] <= 1;
    }
  }

  /** The mapping honours every owner and is one the search can produce: the default, or
      the one grouped in some order of at most five constrained dimensions. */
  ghost predicate Producible(m: SlotMap, divisions: seq<Option<Division>>, dims: seq<Symbol>, splitBy: map<Symbol, nat>,
                             contiguous: Option<Symbol>, cores: int)
  {
    && 0 < cores && HonoursAll(m, divisions, splitBy, cores)
    && (IsDerived(m, dims, splitBy, contiguous, []) || exists order :: CanonicalOwners(divisions, m, order, splitBy, cores))
  }

  ghost predicate HasMapping(divisions: seq<Option<Division>>, dims: seq<Symbol>, splitBy: map<Symbol, nat>,
                             contiguous: Option<Symbol>, cores: int)
  {
    exists m :: Producible(m, divisions, dims, splitBy, contiguous, cores)
  }

  /** A producible mapping, with its order if it is a grouped one. */
  ghost predicate Produced(m: SlotMap, order: seq<Symbol>, divisions: seq<Option<Division>>, dims: seq<Symbol>,
                           splitBy: map<Symbol, nat>, contiguous: Option<Symbol>, cores: int)
  {
    && 0 < cores && HonoursAll(m, divisions, splitBy, cores)
    && (IsDerived(m, dims, splitBy, contiguous, []) || CanonicalOwners(divisions, m, order, splitBy, cores))
  }

  lemma SomeProducible(divisions: seq<Option<Division>>, dims: seq<Symbol>, splitBy: map<Symbol, nat>,
                       contiguous: Option<Symbol>, cores: int)
    returns (whole: SlotMap, order: seq<Symbol>)
    ensures HasMapping(divisions, dims, splitBy, contiguous, cores) ==>
              Produced(whole, order, divisions, dims, splitBy, contiguous, cores)
  {
    whole, order := map[], [];
    if m :| Producible(m, divisions, dims, splitBy, contiguous, cores) {
      whole := m;
      if o :| CanonicalOwners(divisions, m, o, splitBy, cores) {
        order := o;
      }
    }
  }

  method DeriveOperationMapping(dims: seq<Symbol>, splits: seq<nat>, divisions: seq<Option<Division>>,
                                contiguous: Option<Symbol>)
    returns (r: Result<SlotMap>)
    requires Distinct(dims) && |dims| == |splits|
    ensures r.Ok? <==> HasMapping(divisions, dims, ZipMap(dims, splits), contiguous, Prod(splits))
    ensures r.Ok? ==> Producible(r.value, divisions, dims, ZipMap(dims, splits), contiguous, Prod(splits))
    ensures r.Ok? ==> HonoursAll(r.value, divisions, ZipMap(dims, splits), Prod(splits))
    ensures r.Ok? ==> OneCorePerSlice(r.value, ZipMap(dims, splits), Prod(splits))
  {
    var cores, splitBy := Prod(splits), ZipMap(dims, splits);
    ghost var whole, order := SomeProducible(divisions, dims, splitBy, contiguous, cores);
    var constrained := CollectOwners(divisions, splitBy, cores, whole);
    if constrained.Err? {
      return Err;
    }
    r := DeriveHonouring(dims, splits, divisions, constrained.value, contiguous, whole, order);
  }

  /** Two default mappings give every core the same slots. */
  lemma DerivedAgree(constrained: SlotMap, m: SlotMap, m': SlotMap, dims: seq<Symbol>, splitBy: map<Symbol, nat>,
                     contiguous: Option<Symbol>, cores: int)
    requires IsDerived(m, dims, splitBy, contiguous, []) && IsDerived(m', dims, splitBy, contiguous, [])
    requires Within(constrained, m, cores)
    ensures Within(constrained, m', cores)
  {
    var order := DerivedOrder(dims, splitBy, contiguous, []);
    forall d | d in constrained ensures d in m' && SameSlot(constrained[d], m'[d], cores) {
      assert d in m && d in order;
      RadixAgree(m, m', order, SplitsOf(order, splitBy), d);
    }
  }

  lemma RadixAgree(m: SlotMap, m': SlotMap, dims: seq<Symbol>, splits: seq<nat>, d: Symbol)
    requires IsRadixMap(m, dims, splits) && IsRadixMap(m', dims, splits) && d in dims
    ensures d in m && d in m' && forall c :: Eval(m[d], c) == Eval(m'[d], c)
  {
    var k :| 0 <= k < |dims| && dims[k] == d;
    forall c ensures Eval(m[d], c) == Eval(m'[d], c) {
      var digit := Digits(c, splits)[k];
      assert Eval(m[dims[k]], c) == digit && Eval(m'[dims[k]], c) == digit;
    }
  }

  /** The mapping of an operation that no tensor owner constrains. */
  method DeriveDefault(dims: seq<Symbol>, splits: seq<nat>, contiguous: Option<Symbol>) returns (r: Result<SlotMap>)
    requires Distinct(dims) && |dims| == |splits|
    ensures r.Ok? <==> 0 < Prod(splits)
    ensures r.Ok? ==> OneCorePerSlice(r.value, ZipMap(dims, splits), Prod(splits))
    ensures r.Ok? ==> IsDerived(r.value, dims, ZipMap(dims, splits), contiguous, [])
  {
    r := DeriveCoreMapping(dims, splits, Prod(splits), contiguous, [], []);
  }

  method DeriveHonouring(dims: seq<Symbol>, splits: seq<nat>, ghost divisions: seq<Option<Division>>,
                         constrained: SlotMap, contiguous: Option<Symbol>, ghost whole: SlotMap,
                         ghost order: seq<Symbol>)
    returns (r: Result<SlotMap>)
    requires Distinct(dims) && |dims| == |splits|
    requires constrained.Keys == ConstrainedDims(divisions)
    requires HonoursAll(constrained, divisions, ZipMap(dims, splits), Prod(splits))
    requires 0 < Prod(splits) && HonoursAll(whole, divisions, ZipMap(dims, splits), Prod(splits)) ==>
               Within(constrained, whole, Prod(splits))
    ensures r.Ok? ==> OneCorePerSlice(r.value, ZipMap(dims, splits), Prod(splits))
    ensures r.Ok? ==> Producible(r.value, divisions, dims, ZipMap(dims, splits), contiguous, Prod(splits))
    ensures Produced(whole, order, divisions, dims, ZipMap(dims, splits), contiguous, Prod(splits)) ==> r.Ok?
  {
    var cores, splitBy := Prod(splits), ZipMap(dims, splits);
    r := DeriveDefault(dims, splits, contiguous);
    if r.Err? {
      return;
    }
    if HonoursAll(whole, divisions, splitBy, cores) && IsDerived(whole, dims, splitBy, contiguous, []) {
      DerivedAgree(constrained, whole, r.value, dims, splitBy, contiguous, cores);
    }
    if !Within(constrained, r.value, cores) {
      ConstrainedInside(constrained, divisions, splitBy, cores);
      if CanonicalOwners(divisions, whole, order, splitBy, cores) {
        WithinCanonical(constrained, whole, order, splitBy, cores);
      }
      r := SearchOrders(dims, splits, constrained, contiguous, order);
    }
    if r.Ok? {
      HonoursWithin(constrained, r.value, divisions, splitBy, cores);
      if !IsDerived(r.value, dims, splitBy, contiguous, []) {
        ghost var o :| Realises(r.value, constrained.Keys, o, splitBy, cores);
        assert CanonicalOwners(divisions, r.value, o, splitBy, cores);
      }
    }
  }

  /** Some order of the constrained dimensions realises their owners. */
  ghost predicate HasOrder(constrained: SlotMap, order: seq<Symbol>, splitBy: map<Symbol, nat>, cores: nat) {
    && Distinct(order) && |order| <= MAX_OWNER_PERMUTATION_DIMS
    && (forall d :: d in order <==> d in constrained)
    && Canonical(constrained, order, splitBy, cores)
  }

  /** The bounded search over group orders finds one whenever one exists. */
  method SearchOrders(dims: seq<Symbol>, splits: seq<nat>, constrained: SlotMap, contiguous: Option<Symbol>,
                      ghost order: seq<Symbol>)
    returns (r: Result<SlotMap>)
    requires Distinct(dims) && |dims| == |splits| && 0 < Prod(splits)
    requires constrained.Keys <= ZipMap(dims, splits).Keys
    ensures r.Ok? ==> Within(constrained, r.value, Prod(splits))
    ensures r.Ok? ==> OneCorePerSlice(r.value, ZipMap(dims, splits), Prod(splits))
    ensures r.Ok? ==> exists o :: Realises(r.value, constrained.Keys, o, ZipMap(dims, splits), Prod(splits))
    ensures HasOrder(constrained, order, ZipMap(dims, splits), Prod(splits)) ==> r.Ok?
  {
    var listed := Listing(constrained.Keys);
    ghost var fits := HasOrder(constrained, order, ZipMap(dims, splits), Prod(splits));
    if fits {
      ListingsPermute(listed, order);
      PermutationsComplete(listed, order);
      assert |order| == |multiset(order)| == |listed|;
    }
    if |listed| > MAX_OWNER_PERMUTATION_DIMS {
      return Err;
    }
    var orders := Permutations(listed);
    forall i | 0 <= i < |orders| ensures ListsAll(orders[i], constrained.Keys) {
      PermutationFacts(listed, orders[i]);
    }
    r := FirstOrder(dims, splits, constrained, contiguous, orders, order, fits);
    if r.Ok? {
      ghost var i :| 0 <= i < |orders| && Canonical(r.value, orders[i], ZipMap(dims, splits), Prod(splits));
      PermutationsComplete(listed, orders[i]);
      assert |orders[i]| == |multiset(orders[i])| == |listed|;
      assert Realises(r.value, constrained.Keys, orders[i], ZipMap(dims, splits), Prod(splits));
    }
  }

  /** The mapping is the grouped one in an order of the constrained dimensions. */
  ghost predicate Realises(m: SlotMap, constrained: set<Symbol>, order: seq<Symbol>, splitBy: map<Symbol, nat>, cores: nat) {
    ListsAll(order, constrained) && |order| <= MAX_OWNER_PERMUTATION_DIMS && Canonical(m, order, splitBy, cores)
  }

  ghost predicate ListsAll(order: seq<Symbol>, dims: set<Symbol>) {
    Distinct(order) && forall d :: d in order <==> d in dims
  }

  method FirstOrder(dims: seq<Symbol>, splits: seq<nat>, constrained: SlotMap, contiguous: Option<Symbol>,
                    orders: seq<seq<Symbol>>, ghost order: seq<Symbol>, ghost fits: bool)
    returns (r: Result<SlotMap>)
    requires Distinct(dims) && |dims| == |splits| && 0 < Prod(splits)
    requires constrained.Keys <= ZipMap(dims, splits).Keys
    requires forall i :: 0 <= i < |orders| ==> ListsAll(orders[i], constrained.Keys)
    requires fits ==> Canonical(constrained, order, ZipMap(dims, splits), Prod(splits))
    ensures r.Ok? ==> Within(constrained, r.value, Prod(splits))
    ensures r.Ok? ==> OneCorePerSlice(r.value, ZipMap(dims, splits), Prod(splits))
    ensures r.Ok? ==> exists i :: 0 <= i < |orders| && Canonical(r.value, orders[i], ZipMap(dims, splits), Prod(splits))
    ensures fits && order in orders ==> r.Ok?
  {
    for i := 0 to |orders|
      invariant fits ==> forall j :: 0 <= j < i ==> orders[j] != order
    {
      assert ListsAll(orders[i], constrained.Keys);
      r := TryOrder(dims, splits, constrained, contiguous, orders[i], fits && orders[i] == order);
      if r.Ok? {
        return;
      }
    }
    r := Err;
  }

  /** One candidate: the mapping grouped in `order`, if it satisfies the owners. */
  method TryOrder(dims: seq<Symbol>, splits: seq<nat>, constrained: SlotMap, contiguous: Option<Symbol>,
                  order: seq<Symbol>, ghost fits: bool)
    returns (r: Result<SlotMap>)
    requires Distinct(dims) && |dims| == |splits| && 0 < Prod(splits) && Distinct(order)
    requires forall d :: d in order ==> d in dims
    requires forall d :: d in constrained ==> d in order
    ensures r.Ok? ==> Within(constrained, r.value, Prod(splits))
    ensures r.Ok? ==> OneCorePerSlice(r.value, ZipMap(dims, splits), Prod(splits))
    ensures r.Ok? ==> Canonical(r.value, order, ZipMap(dims, splits), Prod(splits))
    requires fits ==> Canonical(constrained, order, ZipMap(dims, splits), Prod(splits))
    ensures fits ==> r.Ok?
  {
    var splitBy := ZipMap(dims, splits);
    ZipMapAt(dims, splits);
    r := DeriveCoreMapping(dims, splits, Prod(splits), contiguous, order, SplitsOf(order, splitBy));
    if r.Ok? {
      DerivedGroupSlots(r.value, dims, splitBy, contiguous, order, Prod(splits));
    }
    if r.Ok? && !Within(constrained, r.value, Prod(splits)) {
      CandidateMisses(constrained, r.value, dims, splitBy, contiguous, order, Prod(splits));
      r := Err;
    }
  }

  lemma CandidateMisses(constrained: SlotMap, candidate: SlotMap, dims: seq<Symbol>, splitBy: map<Symbol, nat>,
                        contiguous: Option<Symbol>, order: seq<Symbol>, cores: nat)
    requires Distinct(dims) && Distinct(order)
    requires forall d :: d in order ==> d in dims
    requires forall d :: d in constrained ==> d in order
    requires 0 < cores == Prod(SplitsOf(dims, splitBy))
    requires IsDerived(candidate, dims, splitBy, contiguous, order)
    requires !Within(constrained, candidate, cores)
    ensures !Canonical(constrained, order, splitBy, cores)
  {
    DerivedGroupSlots(candidate, dims, splitBy, contiguous, order, cores);
    if Canonical(constrained, order, splitBy, cores) {
      CanonicalAgree(constrained, candidate, order, splitBy, cores);
    }
  }

  lemma PermutationFacts(listed: seq<Symbol>, order: seq<Symbol>)
    requires Distinct(listed) && order in Permutations(listed)
    ensures Distinct(order) && forall d :: d in order <==> d in listed
  {
    PermutationsComplete(listed, order);
    DistinctMultiset(listed);
    DistinctMultiset(order);
    assert forall d :: d in order <==> d in multiset(order);
    assert forall d :: d in listed <==> d in multiset(listed);
  }

  lemma HonoursWithin(constrained: SlotMap, m: SlotMap, divisions: seq<Option<Division>>, splitBy: map<Symbol, nat>, cores: int)
    requires HonoursAll(constrained, divisions, splitBy, cores) && Within(constrained, m, cores)
    ensures HonoursAll(m, divisions, splitBy, cores)
  {
    forall i, d | 0 <= i < |divisions| && divisions[i].Some? && d in divisions[i].value.splits
      ensures HonoursAt(m, divisions[i].value, cores, d)
    {
      assert HonoursAt(constrained, divisions[i].value, cores, d);
    }
  }

  lemma {:induction false} ConstrainedInside(constrained: SlotMap, divisions: seq<Option<Division>>, splitBy: map<Symbol, nat>, cores: int)
    requires HonoursAll(constrained, divisions, splitBy, cores)
    ensures ConstrainedDims(divisions) <= splitBy.Keys
  {
    if divisions != [] {
      var n := |divisions| - 1;
      ConstrainedInside(constrained, divisions[..n], splitBy, cores);
      if divisions[n].Some? {
        forall d | d in SplitDims(divisions[n].value.splits) ensures d in splitBy {
          assert FitsAt(divisions[n].value, splitBy, d);
        }
      }
    }
  }

  function SlotsOf(m: SlotMap, order: seq<Symbol>): SlotMap {
    map d | d in m && d in order :: m[d]
  }

  /** A tensor owner that came from the partition generator, over at most five
      split dimensions, always leads to an operation mapping. */
  lemma PartitionOwnersAreCanonical(division: Division, order: seq<Symbol>, splitBy: map<Symbol, nat>, cores: nat)
    requires 0 < cores && Fits(division, splitBy, cores)
    requires Distinct(order) && |order| <= MAX_OWNER_PERMUTATION_DIMS
    requires forall d :: d in order <==> d in SplitDims(division.splits)
    requires IsPartitionMap(SlotsOf(division.owners, order), order, SplitsOf(order, division.splits), cores)
    ensures CanonicalOwners([Some(division)], division.owners, order, splitBy, cores)
  {
    var m := SlotsOf(division.owners, order);
    forall k | 0 <= k < |order| ensures order[k] in division.owners && SplitOf(splitBy, order[k]) == SplitOf(division.splits, order[k]) {
      assert order[k] in order;
      assert FitsAt(division, splitBy, order[k]);
    }
    assert SplitsOf(order, division.splits) == SplitsOf(order, splitBy);
    assert ConstrainedDims([Some(division)]) == SplitDims(division.splits).Keys;
    forall d | d in division.splits ensures HonoursAt(division.owners, division, cores, d) {
      assert FitsAt(division, splitBy, d);
    }
    forall k, c | 0 <= k < |order| && 0 <= c < cores
      ensures Eval(division.owners[order[k]], c) == GroupSlot(SplitsOf(order, splitBy), cores, k, c)
    {
      assert Eval(m[order[k]], c) == GroupSlot(SplitsOf(order, division.splits), cores, k, c);
    }
  }
}
