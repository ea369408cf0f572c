/** One contiguous partition of a fused loop, expressed on physical device axes
    (`decompose_fused_split_view` of `torch_spyre/_inductor/core_mapping.py`). */
module FusedSplit {
  import opened Arith
  import opened Radix
  import opened Wrappers
  import opened Ownership
  import opened CoreMapping
  import opened PartitionMapping
  import opened OperationMapping
  import opened UniqueDivision
  import opened LoopRegions
  import opened LoopProofs
  import opened ViewOwnership
  import opened GridCells

  /** The device axes, in order, whose coordinate depends on the loop. */
  function DrivenFrom(coords: seq<Coordinate>, loop: Symbol, from: nat): (axes: seq<int>)
    requires from <= |coords|
    ensures forall a :: a in axes <==> from <= a < |coords| && loop in coords[a].symbols
    ensures forall i :: 0 <= i < |axes| ==> from <= axes[i] < |coords|
    ensures Distinct(axes)
    decreases |coords| - from
  {
    if from == |coords| then []
    else (if loop in coords[from].symbols then [from] else []) + DrivenFrom(coords, loop, from + 1)
  }

  function Driven(coords: seq<Coordinate>, loop: Symbol): (axes: seq<int>)
    ensures forall a :: a in axes <==> 0 <= a < |coords| && loop in coords[a].symbols
    ensures forall i :: 0 <= i < |axes| ==> 0 <= axes[i] < |coords|
    ensures Distinct(axes)
  {
    DrivenFrom(coords, loop, 0)
  }

  function CoordsAt(access: Access, axes: seq<int>): (cs: seq<Coordinate>)
    requires forall i :: 0 <= i < |axes| ==> 0 <= axes[i] < |access.coords|
    ensures |cs| == |axes| && forall i :: 0 <= i < |axes| ==> cs[i] == access.coords[axes[i]]
  {
    seq(|axes|, i requires 0 <= i < |axes| => access.coords[axes[i]])
  }

  function SizesAt(access: Access, axes: seq<int>): (s: seq<int>)
    requires forall i :: 0 <= i < |axes| ==> 0 <= axes[i] < |access.sizes|
    ensures |s| == |axes| && forall i :: 0 <= i < |axes| ==> s[i] == access.sizes[axes[i]]
  {
    seq(|axes|, i requires 0 <= i < |axes| => access.sizes[axes[i]])
  }

  function Synthetic(axes: seq<int>): (dims: seq<Symbol>)
    ensures |dims| == |axes| && forall i :: 0 <= i < |axes| ==> dims[i] == PhysicalDim(axes[i])
    ensures Distinct(axes) ==> Distinct(dims)
  {
    seq(|axes|, i requires 0 <= i < |axes| => PhysicalDim(axes[i]))
  }

  /** A candidate owns every slot of a split loop, and nothing outside. */
  lemma CandidateSlots(d: Division, order: seq<Symbol>, splits: map<Symbol, nat>, cores: int, loop: Symbol)
    requires IsCandidate(d, order, splits, cores) && loop in SplitDims(splits)
    ensures loop in d.owners
    ensures forall c :: 0 <= c < cores ==> 0 <= Eval(d.owners[loop], c) < splits[loop]
    ensures forall p :: 0 <= p < splits[loop] ==> HasOwner(d.owners[loop], cores, p)
  {
    var k :| 0 <= k < |order| && order[k] == loop;
    var ss := SplitsOf(order, splits);
    ProdPositive(ss);
    forall c | 0 <= c < cores ensures 0 <= Eval(d.owners[loop], c) < splits[loop] {
      DigitsBelow(c / (cores / Prod(ss)), ss);
      assert Eval(d.owners[order[k]], c) == GroupSlot(ss, cores, k, c);
    }
    forall p | 0 <= p < splits[loop] ensures HasOwner(d.owners[loop], cores, p) {
      var c := CoreWithSlot(ss, cores, k, p);
      assert Eval(d.owners[order[k]], c) == GroupSlot(ss, cores, k, c);
    }
  }

  lemma CoreWithSlot(ss: seq<nat>, cores: nat, k: nat, p: int) returns (c: int)
    requires 0 < Prod(ss) <= cores && cores % Prod(ss) == 0 && k < |ss| && 0 <= p < ss[k]
    ensures 0 <= c < cores && GroupSlot(ss, cores, k, c) == p
  {
    ProdPositive(ss);
    ExactDiv(cores, Prod(ss));
    var size := cores / Prod(ss);
    var want := seq(|ss|, i => if i == k then p else 0);
    assert Below(want, ss);
    DigitsCompose(want, ss);
    var g := Compose(want, ss);
    BlockStart(g, size, Prod(ss));
    c := g * size;
  }

  /** The mapping names, for every partition, the cell it fills. */
  ghost predicate NamesCells(m: SlotMap, axes: seq<int>, cells: seq<seq<int>>) {
    && (forall i :: 0 <= i < |axes| ==> PhysicalDim(axes[i]) in m)
    && forall s, i :: 0 <= s < |cells| && 0 <= i < |axes| ==>
         |cells[s]| == |axes| && Eval(m[PhysicalDim(axes[i])], s) == cells[s][i]
  }

  predicate Reproduces(m: SlotMap, axes: seq<int>, cells: seq<seq<int>>)
    requires forall i :: 0 <= i < |axes| ==> PhysicalDim(axes[i]) in m
    requires forall s :: 0 <= s < |cells| ==> |cells[s]| == |axes|
  {
    forall s, i :: 0 <= s < |cells| && 0 <= i < |axes| ==> Eval(m[PhysicalDim(axes[i])], s) == cells[s][i]
  }

  /** `m` is a canonical mapping of the axes in some order, over `split` owners. */
  ghost predicate CanonicalAxes(m: SlotMap, order: seq<Symbol>, axes: seq<int>, factors: seq<nat>, split: int) {
    && |axes| == |factors|
    && multiset(order) == multiset(Synthetic(axes))
    && IsRadixMap(m, order, SplitsOf(order, ZipMap(Synthetic(axes), factors)))
    && 0 < Prod(factors) <= split && split % Prod(factors) == 0
  }

  /** Some order of the axes gives every partition its cell. */
  ghost predicate Ordering(m: SlotMap, order: seq<Symbol>, axes: seq<int>, factors: seq<nat>, cells: seq<seq<int>>, split: int) {
    CanonicalAxes(m, order, axes, factors, split) && NamesCells(m, axes, cells)
  }

  /** The mapping of the first order that names every cell, exactly when there is one. */
  method FindOrder(axes: seq<int>, factors: seq<nat>, cells: seq<seq<int>>, split: int)
    returns (r: Option<SlotMap>, ghost order: seq<Symbol>)
    requires Distinct(axes) && |factors| == |axes| && |cells| == split
    requires forall s :: 0 <= s < |cells| ==> |cells[s]| == |axes|
    ensures r.Some? ==> Ordering(r.value, order, axes, factors, cells, split)
    ensures r.None? ==> forall m, o :: !Ordering(m, o, axes, factors, cells, split)
  {
    var orders := Permutations(Synthetic(axes));
    order := [];
    for k := 0 to |orders|
      invariant forall m, o :: o in orders[..k] ==> !Ordering(m, o, axes, factors, cells, split)
    {
      order := orders[k];
      var m := MapAxes(axes, factors, split, orders[k]);
      if m.Err? {
        return None, order;
      }
      if Reproduces(m.value, axes, cells) {
        return Some(m.value), order;
      }
      forall m' ensures !Ordering(m', order, axes, factors, cells, split) {
        if Ordering(m', order, axes, factors, cells, split) {
          SameOrder(m', m.value, order, axes, factors, cells, split);
        }
      }
    }
    r := None;
    assert orders[..|orders|] == orders;
    forall m, o ensures !Ordering(m, o, axes, factors, cells, split) {
      if Ordering(m, o, axes, factors, cells, split) {
        PermutationsComplete(Synthetic(axes), o);
      }
    }
  }

  /** Mappings for one order agree, so one names the cells if the other does. */
  lemma SameOrder(m: SlotMap, m': SlotMap, order: seq<Symbol>, axes: seq<int>, factors: seq<nat>, cells: seq<seq<int>>, split: int)
    requires Ordering(m, order, axes, factors, cells, split) && CanonicalAxes(m', order, axes, factors, split)
    requires forall i :: 0 <= i < |axes| ==> PhysicalDim(axes[i]) in m'
    requires forall s :: 0 <= s < |cells| ==> |cells[s]| == |axes|
    ensures Reproduces(m', axes, cells)
  {
    forall s, i | 0 <= s < |cells| && 0 <= i < |axes| ensures Eval(m'[PhysicalDim(axes[i])], s) == cells[s][i] {
      var d := PhysicalDim(axes[i]);
      assert Synthetic(axes)[i] == d && d in multiset(Synthetic(axes));
      assert d in order;
      RadixAgree(m, m', order, SplitsOf(order, ZipMap(Synthetic(axes), factors)), d);
    }
  }

  /** The canonical mapping for one order of the axes. */
  method MapAxes(axes: seq<int>, factors: seq<nat>, split: int, order: seq<Symbol>) returns (r: Result<SlotMap>)
    requires Distinct(axes) && |factors| == |axes| && order in Permutations(Synthetic(axes))
    ensures r.Ok? <==> 0 < Prod(factors) <= split && split % Prod(factors) == 0
    ensures r.Ok? ==> CanonicalAxes(r.value, order, axes, factors, split)
    ensures r.Ok? ==> forall i :: 0 <= i < |axes| ==> PhysicalDim(axes[i]) in r.value
  {
    var dims := Synthetic(axes);
    var factorBy := ZipMap(dims, factors);
    PermutationFacts(dims, order);
    PermutationsComplete(dims, order);
    r := CoreToSliceMapping(order, SplitsOf(order, factorBy), split, None);
    ZipMapAt(dims, factors);
    SplitsPermute(order, dims, factorBy);
    ProdPermutation(SplitsOf(order, factorBy), factors);
    if r.Ok? {
      assert order[..|order|] == order;
      forall i | 0 <= i < |axes| ensures dims[i] in r.value {
        assert dims[i] in dims;
      }
    }
  }

  /** The view: the really split axes, owned through the fused loop's slot. */
  function AxisView(axes: seq<int>, factors: seq<nat>, m: SlotMap, slot: Expr, cores: int): View
    requires |axes| == |factors|
    requires forall i :: 0 <= i < |axes| ==> PhysicalDim(axes[i]) in m
  {
    var factorBy := ZipMap(Synthetic(axes), factors);
    View(map a | a in axes && SplitOf(factorBy, PhysicalDim(a)) > 1 :: SplitOf(factorBy, PhysicalDim(a)),
         map a | a in axes && SplitOf(factorBy, PhysicalDim(a)) > 1 :: Subst(m[PhysicalDim(a)], slot),
         Some(cores))
  }

  /** The certificate behind a decomposition. */
  ghost predicate Certified(view: View, access: Access, loop: Symbol, split: int, slot: Expr, cores: int, m: SlotMap,
                            order: seq<Symbol>, factors: seq<nat>, cells: seq<seq<int>>)
  {
    var axes := Driven(access.coords, loop);
    && |access.sizes| == |access.coords| && loop in access.extents
    && (forall i :: 0 <= i < |axes| ==> access.coords[axes[i]].symbols == {loop})
    && OnGrid(Ats(CoordsAt(access, axes)), SizesAt(access, axes), access.extents[loop], split, factors, cells)
    && CanonicalAxes(m, order, axes, factors, split) && NamesCells(m, axes, cells)
    && view == AxisView(axes, factors, m, slot, cores) && view.splits != map[]
    && (forall c :: 0 <= c < cores ==> 0 <= Eval(slot, c) < split)
    && (forall p :: 0 <= p < split ==> HasOwner(slot, cores, p))
  }

  ghost predicate Decomposed(view: View, access: Access, loop: Symbol, split: int, slot: Expr, cores: int) {
    exists m, order, factors, cells :: Certified(view, access, loop, split, slot, cores, m, order, factors, cells)
  }

  lemma SameSlotsOwned(owner: Expr, slot: Expr, other: Expr, cores: int, split: int)
    requires SameSlot(owner, slot, cores) && SameSlot(owner, other, cores)
    requires forall c :: 0 <= c < cores ==> 0 <= Eval(other, c) < split
    requires forall p :: 0 <= p < split ==> HasOwner(other, cores, p)
    ensures forall c :: 0 <= c < cores ==> 0 <= Eval(slot, c) < split
    ensures forall p :: 0 <= p < split ==> HasOwner(slot, cores, p)
  {
    forall p | 0 <= p < split ensures HasOwner(slot, cores, p) {
      assert HasOwner(other, cores, p);
      var c :| 0 <= c < cores && Eval(other, c) == p;
      assert Eval(slot, c) == p;
    }
  }

  /** The tensor splits the fused loop alike, its owners are the fused slot, and they
      are those of one canonical division. */
  ghost predicate CanonicalTensor(loop: Symbol, split: int, slot: Expr, ownership: Division, dims: seq<Symbol>, cores: int) {
    && SplitOf(ownership.splits, loop) == split && ownership.cores == cores && loop in ownership.owners
    && SameSlot(ownership.owners[loop], slot, cores) && Searchable(dims, ownership.splits)
    && exists d, order :: IsCandidate(d, order, ownership.splits, cores) && SameOwnership(ownership, d)
  }

  /** Divisions that own like one division own alike. */
  lemma OwnersAgree(ownership: Division, d: Division, d': Division)
    requires SameOwnership(ownership, d) && SameOwnership(ownership, d')
    ensures SameOwnership(d, d')
  {
  }

  lemma OwnershipExtensional(ownership: Division, splits: map<Symbol, nat>, cores: int)
    ensures Extensional((d: Division) => SameOwnership(ownership, d), splits, cores)
  {
    forall d, order, d', order' | IsCandidate(d, order, splits, cores) && IsCandidate(d', order', splits, cores) && SameOwnership(d, d')
      ensures SameOwnership(ownership, d) == SameOwnership(ownership, d')
    {
      if SameOwnership(ownership, d) {
        SameOwnershipTransitive(ownership, d, d');
      }
      if SameOwnership(ownership, d') {
        SameOwnershipTransitive(ownership, d', d);
      }
    }
  }

  method CanonicalOwner(loop: Symbol, split: int, slot: Expr, ownership: Division, dims: seq<Symbol>, cores: int)
    returns (ok: bool)
    requires 1 < split && 0 < cores && Distinct(dims)
    ensures ok <==> CanonicalTensor(loop, split, slot, ownership, dims, cores)
    ensures ok ==> forall c :: 0 <= c < cores ==> 0 <= Eval(slot, c) < split
    ensures ok ==> forall p :: 0 <= p < split ==> HasOwner(slot, cores, p)
  {
    if SplitOf(ownership.splits, loop) != split || ownership.cores != cores || loop !in ownership.owners {
      return false;
    }
    if !SameSlot(ownership.owners[loop], slot, cores) {
      return false;
    }
    OwnershipExtensional(ownership, ownership.splits, cores);
    var candidate := SelectUniquePartitionDivision(dims, ownership.splits, cores,
                                                   (d: Division) => SameOwnership(ownership, d));
    if candidate.None? {
      forall d, d' | SameOwnership(ownership, d) && SameOwnership(ownership, d') ensures SameOwnership(d, d') {
        OwnersAgree(ownership, d, d');
      }
      return false;
    }
    ghost var order :| IsCandidate(candidate.value, order, ownership.splits, cores);
    CandidateSlots(candidate.value, order, ownership.splits, cores, loop);
    SameSlotsOwned(ownership.owners[loop], slot, candidate.value.owners[loop], cores, split);
    ok := true;
  }

  /** The partitions of the loop lie on a grid over the axes, and some axis is cut. */
  ghost predicate CutsGrid(access: Access, axes: seq<int>, extent: int, split: int, factors: seq<nat>, cells: seq<seq<int>>)
    requires |access.sizes| == |access.coords|
    requires forall i :: 0 <= i < |axes| ==> 0 <= axes[i] < |access.coords|
  {
    && OnGrid(Ats(CoordsAt(access, axes)), SizesAt(access, axes), extent, split, factors, cells)
    && exists i :: 0 <= i < |axes| && factors[i] > 1
  }

  /** The grid cell of every partition, exactly if the partitions are cells of one grid. */
  method PlaceOnGrid(access: Access, axes: seq<int>, extent: int, split: int)
    returns (r: Option<(seq<nat>, seq<seq<int>>)>)
    requires |access.sizes| == |access.coords| && ValidLoop(extent, split)
    requires forall i :: 0 <= i < |axes| ==> 0 <= axes[i] < |access.coords|
    requires forall c :: c in access.coords ==> Faithful(c)
    ensures r.Some? ==> CutsGrid(access, axes, extent, split, r.value.0, r.value.1)
    ensures forall factors, cells :: CutsGrid(access, axes, extent, split, factors, cells) ==> r == Some((factors, cells))
  {
    var coords, sizes := CoordsAt(access, axes), SizesAt(access, axes);
    ParseAllParses(coords, extent);
    var regions := Regions(extent, Ats(coords), ParseAll(coords, extent), sizes, split, true);
    if regions.Err? {
      return None;
    }
    forall s | 0 <= s < split ensures Ordered(regions.value[s]) && OnAxis(regions.value[s], sizes) {
      SlotOnAxis(extent, Ats(coords), sizes, split, s);
    }
    r := FindGrid(sizes, regions.value);
    forall f, c | CutsGrid(access, axes, extent, split, f, c) ensures r == Some((f, c)) {
      assert GridFits(sizes, regions.value, f, c);
      GridUnique(sizes, regions.value, f, c, r.value.0, r.value.1);
    }
  }

  /** The limits on the search and the form of the tensor's ownership. */
  ghost predicate Admissible(loop: Symbol, split: int, slot: Expr, ownership: Division, dims: seq<Symbol>, access: Access, cores: int) {
    && 1 < split && 0 < cores && cores % split == 0
    && loop in access.extents && access.extents[loop] + split <= MAX_EXACT_OWNERSHIP_POINTS
    && 2 <= |Driven(access.coords, loop)| <= 5
    && CanonicalTensor(loop, split, slot, ownership, dims, cores)
  }

  /** `dims` lists the loops of the tensor's ownership. */
  method DecomposeFusedSplitView(loop: Symbol, split: int, slot: Expr, ownership: Division, dims: seq<Symbol>, access: Access,
                                 cores: int)
    returns (r: Option<View>)
    requires Distinct(dims) && forall c :: c in access.coords ==> Faithful(c)
    ensures r.Some? <==> Admissible(loop, split, slot, ownership, dims, access, cores)
                         && Decomposable(access, loop, split, slot, cores)
    ensures r.Some? ==> Decomposed(r.value, access, loop, split, slot, cores)
    ensures r.Some? ==> OwnsImages(r.value, access, loop, split, slot, cores)
  {
    if split <= 1 || cores <= 0 || cores % split != 0 || loop !in access.extents || !Driveable(access, loop, split) {
      if Decomposable(access, loop, split, slot, cores) {
        DecomposableDrives(access, loop, split, slot, cores);
      }
      return None;
    }
    if access.extents[loop] + split > MAX_EXACT_OWNERSHIP_POINTS {
      return None;
    }
    var canonical := CanonicalOwner(loop, split, slot, ownership, dims, cores);
    if !canonical || !(2 <= |Driven(access.coords, loop)| <= 5) {
      return None;
    }
    r := DecomposeOnGrid(loop, split, slot, access, cores);
  }

  /** Sizes and coordinates match, the split divides the loop, and every axis the loop
      drives is driven by it alone. */
  predicate Driveable(access: Access, loop: Symbol, split: int)
    requires loop in access.extents
  {
    var axes := Driven(access.coords, loop);
    && |access.sizes| == |access.coords| && ValidLoop(access.extents[loop], split)
    && forall i :: 0 <= i < |axes| ==> access.coords[axes[i]].symbols == {loop}
  }

  /** Some view decomposes the split. */
  ghost predicate Decomposable(access: Access, loop: Symbol, split: int, slot: Expr, cores: int) {
    exists view :: Decomposed(view, access, loop, split, slot, cores)
  }

  lemma DecomposableDrives(access: Access, loop: Symbol, split: int, slot: Expr, cores: int)
    requires Decomposable(access, loop, split, slot, cores)
    ensures loop in access.extents && Driveable(access, loop, split)
  {
    var view :| Decomposed(view, access, loop, split, slot, cores);
    var m, order, factors, cells :| Certified(view, access, loop, split, slot, cores, m, order, factors, cells);
  }

  lemma DecomposableGives(access: Access, loop: Symbol, split: int, slot: Expr, cores: int)
    returns (m: SlotMap, order: seq<Symbol>, factors: seq<nat>, cells: seq<seq<int>>)
    requires Decomposable(access, loop, split, slot, cores) && loop in access.extents && Driveable(access, loop, split)
    ensures CutsGrid(access, Driven(access.coords, loop), access.extents[loop], split, factors, cells)
    ensures Ordering(m, order, Driven(access.coords, loop), factors, cells, split)
  {
    var view :| Decomposed(view, access, loop, split, slot, cores);
    m, order, factors, cells :| Certified(view, access, loop, split, slot, cores, m, order, factors, cells);
    CertifiedCuts(view, access, loop, split, slot, cores, m, order, factors, cells);
  }

  lemma OrderingCertifies(access: Access, loop: Symbol, split: int, slot: Expr, cores: int, m: SlotMap, order: seq<Symbol>,
                          factors: seq<nat>, cells: seq<seq<int>>)
    requires loop in access.extents && Driveable(access, loop, split)
    requires forall c :: 0 <= c < cores ==> 0 <= Eval(slot, c) < split
    requires forall p :: 0 <= p < split ==> HasOwner(slot, cores, p)
    requires CutsGrid(access, Driven(access.coords, loop), access.extents[loop], split, factors, cells)
    requires Ordering(m, order, Driven(access.coords, loop), factors, cells, split)
    ensures Decomposed(AxisView(Driven(access.coords, loop), factors, m, slot, cores), access, loop, split, slot, cores)
  {
    var axes := Driven(access.coords, loop);
    AxisViewSplits(axes, factors, m, slot, cores);
    var view := AxisView(axes, factors, m, slot, cores);
    assert Certified(view, access, loop, split, slot, cores, m, order, factors, cells);
  }

  method DecomposeOnGrid(loop: Symbol, split: int, slot: Expr, access: Access, cores: int) returns (r: Option<View>)
    requires loop in access.extents && Driveable(access, loop, split) && forall c :: c in access.coords ==> Faithful(c)
    requires forall c :: 0 <= c < cores ==> 0 <= Eval(slot, c) < split
    requires forall p :: 0 <= p < split ==> HasOwner(slot, cores, p)
    ensures r.Some? <==> Decomposable(access, loop, split, slot, cores)
    ensures r.Some? ==> Decomposed(r.value, access, loop, split, slot, cores)
    ensures r.Some? ==> OwnsImages(r.value, access, loop, split, slot, cores)
  {
    var axes, extent := Driven(access.coords, loop), access.extents[loop];
    ghost var have := Decomposable(access, loop, split, slot, cores);
    ghost var m': SlotMap, o': seq<Symbol>, f': seq<nat>, c': seq<seq<int>> := map[], [], [], [];
    if have {
      m', o', f', c' := DecomposableGives(access, loop, split, slot, cores);
    }
    var grid := PlaceOnGrid(access, axes, extent, split);
    if grid.None? {
      return None;
    }
    var (factors, cells) := grid.value;
    assert have ==> factors == f' && cells == c';
    var m, order := FindOrder(axes, factors, cells, split);
    if m.None? {
      return None;
    }
    OrderingCertifies(access, loop, split, slot, cores, m.value, order, factors, cells);
    r := Some(AxisView(axes, factors, m.value, slot, cores));
    DecomposedOwnsImages(r.value, access, loop, split, slot, cores);
  }

  lemma CertifiedCuts(view: View, access: Access, loop: Symbol, split: int, slot: Expr, cores: int, m: SlotMap,
                      order: seq<Symbol>, factors: seq<nat>, cells: seq<seq<int>>)
    requires Certified(view, access, loop, split, slot, cores, m, order, factors, cells)
    ensures CutsGrid(access, Driven(access.coords, loop), access.extents[loop], split, factors, cells)
    ensures Ordering(m, order, Driven(access.coords, loop), factors, cells, split)
  {
    var axes := Driven(access.coords, loop);
    AxisViewSplits(axes, factors, m, slot, cores);
    var a :| a in view.splits;
    assert a in axes;
    var i :| 0 <= i < |axes| && axes[i] == a;
  }

  lemma SlotOnAxis(extent: int, ats: seq<int -> int>, sizes: seq<int>, split: int, s: int)
    requires ValidLoop(extent, split) && |ats| == |sizes| && 0 <= s < split
    requires SlotAccepted(extent, ats, sizes, split, true, s)
    ensures Ordered(SlotBounds(extent, ats, split, s)) && OnAxis(SlotBounds(extent, ats, split, s), sizes)
  {
    SlotInside(extent, split, s);
    ExactBoundsHold(ats, s * (extent / split), (s + 1) * (extent / split) - 1);
  }

  /** The view splits exactly the axes whose factor exceeds one. */
  lemma AxisViewSplits(axes: seq<int>, factors: seq<nat>, m: SlotMap, slot: Expr, cores: int)
    requires |axes| == |factors| && Distinct(axes)
    requires forall i :: 0 <= i < |axes| ==> PhysicalDim(axes[i]) in m
    ensures var view := AxisView(axes, factors, m, slot, cores);
            && (forall a :: a in view.splits ==> a in axes)
            && forall i :: 0 <= i < |axes| ==>
                 && SplitOf(ZipMap(Synthetic(axes), factors), PhysicalDim(axes[i])) == factors[i]
                 && (axes[i] in view.splits <==> factors[i] > 1)
                 && (factors[i] > 1 ==> view.splits[axes[i]] == factors[i]
                                        && view.slots[axes[i]] == Subst(m[PhysicalDim(axes[i])], slot))
  {
    ZipMapAt(Synthetic(axes), factors);
    forall i | 0 <= i < |axes| ensures SplitOf(ZipMap(Synthetic(axes), factors), PhysicalDim(axes[i])) == factors[i] {
      assert Synthetic(axes)[i] in Synthetic(axes);
    }
  }

  /** The part of an axis that core c owns under the view. */
  function OwnedBound(view: View, access: Access, a: int, c: int): Bound
    requires 0 <= a < |access.sizes|
  {
    if a in view.splits && a in view.slots && 0 < view.splits[a]
    then CellBound(access.sizes[a], view.splits[a], Eval(view.slots[a], c))
    else Bound(0, access.sizes[a] - 1)
  }

  function OwnedBox(view: View, access: Access, axes: seq<int>, c: int): (b: seq<Bound>)
    requires forall i :: 0 <= i < |axes| ==> 0 <= axes[i] < |access.sizes|
    ensures |b| == |axes| && forall i :: 0 <= i < |axes| ==> b[i] == OwnedBound(view, access, axes[i], c)
  {
    seq(|axes|, i requires 0 <= i < |axes| => OwnedBound(view, access, axes[i], c))
  }

  /** The points of loop partition `part`, in loop order. */
  ghost function PartitionPoints(ats: seq<int -> int>, extent: int, split: int, part: int): seq<seq<int>>
    requires ValidLoop(extent, split) && 0 <= part < split
  {
    SlotInside(extent, split, part);
    Points(ats, part * (extent / split), (part + 1) * (extent / split) - 1)
  }

  /** Each core's physical rectangle is, point for point, the image of the loop
      partition it owns. */
  ghost predicate OwnsImages(view: View, access: Access, loop: Symbol, split: int, slot: Expr, cores: int) {
    var axes := Driven(access.coords, loop);
    && |access.sizes| == |access.coords| && loop in access.extents && ValidLoop(access.extents[loop], split)
    && forall c :: 0 <= c < cores ==>
         && 0 <= Eval(slot, c) < split
         && Fills(PartitionPoints(Ats(CoordsAt(access, axes)), access.extents[loop], split, Eval(slot, c)),
                  OwnedBox(view, access, axes, c))
  }

  lemma OwnedBoundIs(access: Access, axes: seq<int>, factors: seq<nat>, m: SlotMap, slot: Expr, cores: int, i: nat, c: int)
    requires |axes| == |factors| && Distinct(axes) && i < |axes| && 0 <= axes[i] < |access.sizes| && 0 < factors[i]
    requires forall j :: 0 <= j < |axes| ==> PhysicalDim(axes[j]) in m
    requires 0 <= Eval(m[PhysicalDim(axes[i])], Eval(slot, c)) < factors[i]
    ensures OwnedBound(AxisView(axes, factors, m, slot, cores), access, axes[i], c)
         == CellBound(access.sizes[axes[i]], factors[i], Eval(m[PhysicalDim(axes[i])], Eval(slot, c)))
  {
    AxisViewSplits(axes, factors, m, slot, cores);
    EvalSubst(m[PhysicalDim(axes[i])], slot, c);
    assert access.sizes[axes[i]] / 1 == access.sizes[axes[i]];
  }

  lemma BoxIsOwned(access: Access, axes: seq<int>, factors: seq<nat>, m: SlotMap, slot: Expr, cores: int,
                   bounds: seq<Bound>, cell: seq<int>, c: int)
    requires |axes| == |factors| == |cell| && Distinct(axes)
    requires forall i :: 0 <= i < |axes| ==> 0 <= axes[i] < |access.sizes| && 0 < factors[i]
    requires forall i :: 0 <= i < |axes| ==>
               PhysicalDim(axes[i]) in m && Eval(m[PhysicalDim(axes[i])], Eval(slot, c)) == cell[i]
    requires InCell(bounds, SizesAt(access, axes), factors, cell)
    ensures bounds == OwnedBox(AxisView(axes, factors, m, slot, cores), access, axes, c)
  {
    var view := AxisView(axes, factors, m, slot, cores);
    forall i | 0 <= i < |axes| ensures bounds[i] == OwnedBox(view, access, axes, c)[i] {
      OwnedBoundIs(access, axes, factors, m, slot, cores, i, c);
    }
  }

  lemma CellIsOwned(view: View, access: Access, loop: Symbol, split: int, slot: Expr, cores: int, m: SlotMap,
                    order: seq<Symbol>, factors: seq<nat>, cells: seq<seq<int>>, c: int)
    requires Certified(view, access, loop, split, slot, cores, m, order, factors, cells) && 0 <= c < cores
    ensures var axes := Driven(access.coords, loop);
            SlotBounds(access.extents[loop], Ats(CoordsAt(access, axes)), split, Eval(slot, c))
            == OwnedBox(view, access, axes, c)
  {
    var axes, s := Driven(access.coords, loop), Eval(slot, c);
    var bounds := SlotBounds(access.extents[loop], Ats(CoordsAt(access, axes)), split, s);
    BoxIsOwned(access, axes, factors, m, slot, cores, bounds, cells[s], c);
  }

  lemma PartitionFills(ats: seq<int -> int>, sizes: seq<int>, extent: int, split: int, part: int)
    requires ValidLoop(extent, split) && |ats| == |sizes| && 0 <= part < split
    requires SlotAccepted(extent, ats, sizes, split, true, part)
    ensures Fills(PartitionPoints(ats, extent, split, part), SlotBounds(extent, ats, split, part))
  {
  }

  lemma CertifiedOwnsImages(view: View, access: Access, loop: Symbol, split: int, slot: Expr, cores: int, m: SlotMap,
                            order: seq<Symbol>, factors: seq<nat>, cells: seq<seq<int>>)
    requires Certified(view, access, loop, split, slot, cores, m, order, factors, cells)
    ensures OwnsImages(view, access, loop, split, slot, cores)
  {
    var axes := Driven(access.coords, loop);
    var ats, extent := Ats(CoordsAt(access, axes)), access.extents[loop];
    forall c | 0 <= c < cores
      ensures Fills(PartitionPoints(ats, extent, split, Eval(slot, c)), OwnedBox(view, access, axes, c))
    {
      CertifiedImage(view, access, loop, split, slot, cores, m, order, factors, cells, c);
    }
  }

  lemma CertifiedImage(view: View, access: Access, loop: Symbol, split: int, slot: Expr, cores: int, m: SlotMap,
                       order: seq<Symbol>, factors: seq<nat>, cells: seq<seq<int>>, c: int)
    requires Certified(view, access, loop, split, slot, cores, m, order, factors, cells) && 0 <= c < cores
    ensures var axes := Driven(access.coords, loop);
            Fills(PartitionPoints(Ats(CoordsAt(access, axes)), access.extents[loop], split, Eval(slot, c)),
                  OwnedBox(view, access, axes, c))
  {
    var axes := Driven(access.coords, loop);
    CellIsOwned(view, access, loop, split, slot, cores, m, order, factors, cells, c);
    PartitionFills(Ats(CoordsAt(access, axes)), SizesAt(access, axes), access.extents[loop], split, Eval(slot, c));
  }

  lemma DecomposedOwnsImages(view: View, access: Access, loop: Symbol, split: int, slot: Expr, cores: int)
    requires Decomposed(view, access, loop, split, slot, cores)
    ensures OwnsImages(view, access, loop, split, slot, cores)
  {
    var m, order, factors, cells :| Certified(view, access, loop, split, slot, cores, m, order, factors, cells);
    CertifiedOwnsImages(view, access, loop, split, slot, cores, m, order, factors, cells);
  }
}
