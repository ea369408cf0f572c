/** A decomposed view read back (`decompose_fused_split_view` and
    `work_division_from_view` of `torch_spyre/_inductor/core_mapping.py`). */
module ReadBack {
  import opened Arith
  import opened Ownership
  import opened CoreMapping
  import opened LoopRegions
  import opened LoopProofs
  import opened ViewOwnership
  import opened GridCells
  import opened FusedSplit

  /** The splits of a view along a list of axes; an unsplit axis counts once. */
  function SplitsAlong(view: View, axes: seq<int>): (s: seq<nat>)
    ensures |s| == |axes|
    ensures forall i :: 0 <= i < |axes| ==> s[i] == if axes[i] in view.splits then view.splits[axes[i]] else 1
  {
    seq(|axes|, i requires 0 <= i < |axes| => if axes[i] in view.splits then view.splits[axes[i]] else 1)
  }

  /** The view names, through `m` and the fused slot, the split axes among `axes`. */
  ghost predicate Named(view: View, axes: seq<int>, factors: seq<nat>, m: SlotMap, slot: Expr) {
    && |axes| == |factors| && Distinct(axes)
    && (forall i :: 0 <= i < |axes| ==>
          PhysicalDim(axes[i]) in m && 0 < factors[i] && (axes[i] in view.splits <==> factors[i] > 1))
    && (forall i :: 0 <= i < |axes| && factors[i] > 1 ==>
          && view.splits[axes[i]] == factors[i]
          && axes[i] in view.slots && view.slots[axes[i]] == Subst(m[PhysicalDim(axes[i])], slot))
    && forall a :: a in view.splits ==> a in axes
  }

  lemma AxisViewNamed(axes: seq<int>, factors: seq<nat>, m: SlotMap, slot: Expr, cores: int)
    requires |axes| == |factors| && Distinct(axes)
    requires forall i :: 0 <= i < |axes| ==> PhysicalDim(axes[i]) in m && 0 < factors[i]
    ensures Named(AxisView(axes, factors, m, slot, cores), axes, factors, m, slot)
  {
    AxisViewSplits(axes, factors, m, slot, cores);
  }

  lemma AlongFactors(view: View, axes: seq<int>, factors: seq<nat>, m: SlotMap, slot: Expr)
    requires Named(view, axes, factors, m, slot)
    ensures SplitsAlong(view, axes) == factors
  {
  }

  lemma AlongWithout(view: View, axes: seq<int>, j: nat)
    requires j < |axes|
    ensures Prod(SplitsAlong(view, axes)) == SplitsAlong(view, axes)[j] * Prod(SplitsAlong(view, Without(axes, j)))
  {
    ProdWithout(SplitsAlong(view, axes), j);
    assert Without(SplitsAlong(view, axes), j) == SplitsAlong(view, Without(axes, j));
  }

  /** `kept` lists the split axes among `axes`. */
  ghost predicate Kept(view: View, axes: seq<int>, kept: seq<int>) {
    && Distinct(axes) && Distinct(kept)
    && forall a :: a in kept <==> a in axes && a in view.splits
  }

  /** The product along all driven axes is that along the split ones, in any order. */
  lemma {:induction false} AlongSplitAxes(view: View, axes: seq<int>, kept: seq<int>)
    requires Kept(view, axes, kept)
    ensures Prod(SplitsAlong(view, axes)) == Prod(SplitsAlong(view, kept))
    decreases |axes|
  {
    if |axes| == 0 {
      DistinctSize(kept);
      DistinctSize(axes);
      var listed, among := set a | a in kept, set a | a in axes;
      assert forall a :: a in listed ==> a in among;
      SubsetSize(listed, among);
    } else {
      AlongWithout(view, axes, 0);
      if axes[0] in view.splits {
        var j := KeptFirst(view, axes, kept);
        AlongWithout(view, kept, j);
        AlongSplitAxes(view, Without(axes, 0), Without(kept, j));
      } else {
        KeptRest(view, axes, kept);
        AlongSplitAxes(view, Without(axes, 0), kept);
      }
    }
  }

  lemma KeptFirst(view: View, axes: seq<int>, kept: seq<int>) returns (j: nat)
    requires Kept(view, axes, kept) && 0 < |axes| && axes[0] in view.splits
    ensures j < |kept| && kept[j] == axes[0] && Kept(view, Without(axes, 0), Without(kept, j))
  {
    var a := axes[0];
    assert a in axes;
    j :| 0 <= j < |kept| && kept[j] == a;
    WithoutDistinct(axes, 0);
    WithoutDistinct(kept, j);
  }

  lemma KeptRest(view: View, axes: seq<int>, kept: seq<int>)
    requires Kept(view, axes, kept) && 0 < |axes| && axes[0] !in view.splits
    ensures Kept(view, Without(axes, 0), kept)
  {
    WithoutDistinct(axes, 0);
  }

  lemma WithoutDistinct<T>(s: seq<T>, j: nat)
    requires Distinct(s) && j < |s|
    ensures Distinct(Without(s, j))
    ensures forall x :: x in Without(s, j) <==> x in s && x != s[j]
  {
    var t := Without(s, j);
    forall x | x in s && x != s[j] ensures x in t {
      var i :| 0 <= i < |s| && s[i] == x;
      assert x == t[if i < j then i else i - 1];
    }
  }

  /** Slot 1 on one axis and slot 0 on the others. */
  lemma UnitSlots(dims: seq<Symbol>, factors: seq<nat>, j: nat) returns (want: map<Symbol, int>)
    requires Distinct(dims) && |dims| == |factors| && AllPositive(factors) && j < |factors| && factors[j] > 1
    ensures ValidSlots(want, ZipMap(dims, factors))
    ensures forall i :: 0 <= i < |dims| ==> dims[i] in want && want[dims[i]] == if i == j then 1 else 0
  {
    ZipMapAt(dims, factors);
    var splits := ZipMap(dims, factors);
    want := map d | d in splits :: if d == dims[j] then 1 else 0;
    assert forall i :: 0 <= i < |dims| ==> dims[i] in dims;
    forall d | d in want ensures 0 <= want[d] < splits[d] {
      var k :| 0 <= k < |dims| && dims[k] == d;
    }
  }

  /** Two different split axes disagree on some core. */
  lemma AxesDisagree(m: SlotMap, order: seq<Symbol>, axes: seq<int>, factors: seq<nat>, split: int, slot: Expr,
                     cores: int, i: nat, j: nat)
    returns (c: int)
    requires Distinct(axes) && CanonicalAxes(m, order, axes, factors, split) && Prod(factors) == split
    requires forall p :: 0 <= p < split ==> HasOwner(slot, cores, p)
    requires i < |axes| && j < |axes| && i != j && factors[j] > 1
    ensures 0 <= c < cores && PhysicalDim(axes[i]) in m && PhysicalDim(axes[j]) in m
    ensures Eval(m[PhysicalDim(axes[i])], Eval(slot, c)) != Eval(m[PhysicalDim(axes[j])], Eval(slot, c))
  {
    var dims := Synthetic(axes);
    OrderFacts(axes, factors, order);
    ProdPositive(factors);
    var want := UnitSlots(dims, factors, j);
    var s := RadixSurjective(m, order, ZipMap(dims, factors), want);
    assert SlotsAt(m, s)[dims[i]] == 0 && SlotsAt(m, s)[dims[j]] == 1;
    assert HasOwner(slot, cores, s);
    c :| 0 <= c < cores && Eval(slot, c) == s;
  }

  lemma OrderFacts(axes: seq<int>, factors: seq<nat>, order: seq<Symbol>)
    requires Distinct(axes) && |axes| == |factors| && multiset(order) == multiset(Synthetic(axes))
    ensures ZipMap(Synthetic(axes), factors).Keys == set d | d in order
    ensures Prod(SplitsOf(order, ZipMap(Synthetic(axes), factors))) == Prod(factors)
  {
    var dims := Synthetic(axes);
    ZipMapAt(dims, factors);
    SplitsPermute(order, dims, ZipMap(dims, factors));
    ProdPermutation(SplitsOf(order, ZipMap(dims, factors)), factors);
    assert forall d :: d in order <==> d in multiset(order);
    assert forall d :: d in dims <==> d in multiset(dims);
  }

  /** The owner of a split axis reads the fused loop's slot through `m`. */
  lemma ViewSlot(view: View, axes: seq<int>, factors: seq<nat>, m: SlotMap, slot: Expr, a: int)
    returns (i: nat)
    requires Named(view, axes, factors, m, slot) && a in view.splits
    ensures i < |axes| && axes[i] == a && factors[i] == view.splits[a] > 1 && a in view.slots
    ensures forall c :: Eval(view.slots[a], c) == Eval(m[PhysicalDim(axes[i])], Eval(slot, c))
  {
    i :| 0 <= i < |axes| && axes[i] == a;
    forall c ensures Eval(view.slots[a], c) == Eval(m[PhysicalDim(axes[i])], Eval(slot, c)) {
      EvalSubst(m[PhysicalDim(a)], slot, c);
    }
  }

  lemma NotSame(view: View, driven: seq<int>, split: int, slot: Expr, cores: int, m: SlotMap, order: seq<Symbol>,
                factors: seq<nat>, a: int, b: int)
    requires Named(view, driven, factors, m, slot) && a in view.splits && b in view.splits && a != b
    requires CanonicalAxes(m, order, driven, factors, split) && Prod(factors) == split
    requires forall p :: 0 <= p < split ==> HasOwner(slot, cores, p)
    ensures a in view.slots && b in view.slots && !SameSlot(view.slots[b], view.slots[a], cores)
  {
    var i := ViewSlot(view, driven, factors, m, slot, a);
    var j := ViewSlot(view, driven, factors, m, slot, b);
    var c := AxesDisagree(m, order, driven, factors, split, slot, cores, i, j);
    assert Eval(view.slots[a], c) != Eval(view.slots[b], c);
  }

  lemma SplitOfAxes(view: View, access: Access, driven: seq<int>, axes: seq<int>, cores: int)
    requires Readable(view, access) && Distinct(driven) && Distinct(axes) && |axes| >= 2
    requires forall a :: a in axes <==> a in driven && a in view.splits
    requires forall i :: 0 <= i < |axes| ==> axes[i] in view.splits && axes[i] in view.slots
    requires !SameSlot(view.slots[axes[1]], view.slots[axes[0]], cores)
    ensures LoopSplit(AxesOf(view, access, axes), cores) == Prod(SplitsAlong(view, driven))
  {
    var listed := AxesOf(view, access, axes);
    AlongSplitAxes(view, driven, axes);
    assert AxisSplits(listed) == SplitsAlong(view, axes);
    assert listed[1].slot == view.slots[axes[1]] && listed[0].slot == view.slots[axes[0]];
    assert !SameAxes(listed, cores);
  }

  /** The fused loop drives every split axis of the view. */
  lemma DrivesAll(view: View, access: Access, loop: Symbol, driven: seq<int>, factors: seq<nat>, m: SlotMap, slot: Expr,
                  axes: seq<int>)
    requires Named(view, driven, factors, m, slot)
    requires forall i :: 0 <= i < |driven| ==> 0 <= driven[i] < |access.coords| && access.coords[driven[i]].symbols == {loop}
    requires Readable(view, access) && ListsAxes(view, access, loop, axes)
    ensures forall a :: a in axes <==> a in driven && a in view.splits
    ensures forall i :: 0 <= i < |axes| ==> axes[i] in view.splits && axes[i] in view.slots
  {
    forall a | a in view.splits ensures a in driven && LoopOf(view, access, a) == loop && a in view.slots {
      var i := ViewSlot(view, driven, factors, m, slot, a);
    }
    assert forall i :: 0 <= i < |axes| ==> axes[i] in axes;
  }

  /** Reading the view back splits the loop as the fused loop was split. */
  lemma ReadsSameSplit(view: View, access: Access, loop: Symbol, driven: seq<int>, split: int, slot: Expr, cores: int,
                       m: SlotMap, order: seq<Symbol>, factors: seq<nat>, axes: seq<int>)
    requires Named(view, driven, factors, m, slot)
    requires CanonicalAxes(m, order, driven, factors, split) && Prod(factors) == split
    requires forall p :: 0 <= p < split ==> HasOwner(slot, cores, p)
    requires forall i :: 0 <= i < |driven| ==> 0 <= driven[i] < |access.coords| && access.coords[driven[i]].symbols == {loop}
    requires Readable(view, access) && ListsAxes(view, access, loop, axes) && |axes| >= 2
    ensures LoopSplit(AxesOf(view, access, axes), cores) == split
  {
    DrivesAll(view, access, loop, driven, factors, m, slot, axes);
    AlongFactors(view, driven, factors, m, slot);
    NotSame(view, driven, split, slot, cores, m, order, factors, axes[0], axes[1]);
    SplitOfAxes(view, access, driven, axes, cores);
  }

  /** A partition of the loop falls, on every axis, into its grid cell. */
  lemma GridCell(ats: seq<int -> int>, sizes: seq<int>, extent: int, split: int, factors: seq<nat>,
                 cells: seq<seq<int>>, t: int, i: nat)
    requires OnGrid(ats, sizes, extent, split, factors, cells) && 0 <= t < split && i < |ats|
    ensures 0 < extent / split && 0 <= t * (extent / split) < extent && t * (extent / split) / (extent / split) == t
    ensures 0 < sizes[i] / factors[i] && |cells[t]| == |sizes| && 0 <= cells[t][i] < factors[i]
    ensures ats[i](t * (extent / split)) / (sizes[i] / factors[i]) == cells[t][i]
  {
    SlotInside(extent, split, t);
    var w := extent / split;
    var x := t * w;
    ExactDiv(sizes[i], factors[i]);
    OverTight(ats[i], x, (t + 1) * w - 1);
    var size := sizes[i] / factors[i];
    assert SlotBounds(extent, ats, split, t)[i] == CellBound(sizes[i], factors[i], cells[t][i]);
    DivModUnique(ats[i](x), size, cells[t][i], ats[i](x) - cells[t][i] * size);
    DivModUnique(x, w, t, 0);
  }

  /** An iteration the read division gives to core c falls into its slice of axis a. */
  lemma ReadTouches(view: View, access: Access, loop: Symbol, d: Division, split: int, a: int, c: int, x: int)
    requires Readable(view, access) && StaysInside(view, access, d) && 0 <= c < d.cores
    requires a in view.splits && access.coords[a].symbols == {loop} && !SingleAxis(view, access, a)
    requires loop in d.splits && d.splits[loop] == split && loop in d.owners
    requires 0 < split && 0 < access.extents[loop] / split && 0 <= x < access.extents[loop]
    requires x / (access.extents[loop] / split) == Eval(d.owners[loop], c)
    ensures 0 < access.sizes[a] / view.splits[a]
    ensures access.coords[a].at(x) / (access.sizes[a] / view.splits[a]) == Eval(view.slots[a], c)
  {
    assert TouchesOwnSlice(view, access, d, a, c, x);
    assert LoopOf(view, access, a) == loop;
    assert 0 < SliceWidth(AxisOf(view, access, a));
  }

  /** The loop drives every split axis, and there are two of them. */
  ghost predicate TwoAxes(view: View, access: Access, loop: Symbol, a: int, b: int)
    requires Readable(view, access)
  {
    && a in view.splits && b in view.splits && a != b
    && forall x :: x in view.splits ==> LoopOf(view, access, x) == loop
  }

  lemma NotSingle(view: View, access: Access, loop: Symbol, a: int, b: int, x: int)
    requires Readable(view, access) && TwoAxes(view, access, loop, a, b) && x in view.splits
    ensures !SingleAxis(view, access, x)
  {
    var other := if a == x then b else a;
    assert LoopOf(view, access, other) == LoopOf(view, access, x);
  }

  /** The read division's slot and the fused slot name the same cell on axis i. */
  lemma SameDigit(view: View, access: Access, loop: Symbol, driven: seq<int>, split: int, slot: Expr,
                  m: SlotMap, factors: seq<nat>, cells: seq<seq<int>>, d: Division, a: int, b: int, c: int, i: nat)
    requires Named(view, driven, factors, m, slot) && NamesCells(m, driven, cells)
    requires |access.sizes| == |access.coords| && loop in access.extents && i < |driven|
    requires forall j :: 0 <= j < |driven| ==> 0 <= driven[j] < |access.coords|
    requires access.coords[driven[i]].symbols == {loop}
    requires OnGrid(Ats(CoordsAt(access, driven)), SizesAt(access, driven), access.extents[loop], split, factors, cells)
    requires Readable(view, access) && StaysInside(view, access, d) && 0 <= c < d.cores
    requires TwoAxes(view, access, loop, a, b)
    requires loop in d.splits && d.splits[loop] == split && loop in d.owners
    requires 0 <= Eval(slot, c) < split && 0 <= Eval(d.owners[loop], c) < split
    ensures Eval(m[PhysicalDim(driven[i])], Eval(slot, c)) == Eval(m[PhysicalDim(driven[i])], Eval(d.owners[loop], c))
  {
    var extent, s, t := access.extents[loop], Eval(slot, c), Eval(d.owners[loop], c);
    var ats, sizes := Ats(CoordsAt(access, driven)), SizesAt(access, driven);
    GridCell(ats, sizes, extent, split, factors, cells, s, i);
    GridCell(ats, sizes, extent, split, factors, cells, t, i);
    var x := driven[i];
    assert ats[i] == access.coords[x].at && sizes[i] == access.sizes[x];
    if x in view.splits {
      var k := ViewSlot(view, driven, factors, m, slot, x);
      NotSingle(view, access, loop, a, b, x);
      ReadTouches(view, access, loop, d, split, x, c, t * (extent / split));
    }
  }

  /** The axes behind one loop of a read division. */
  lemma ReadAxes(view: View, access: Access, d: Division, loop: Symbol) returns (axes: seq<int>)
    requires ReadsView(view, access, d) && loop in d.splits
    ensures ListsAxes(view, access, loop, axes) && loop in d.owners
    ensures (forall i :: 0 <= i < |axes| ==> ReadableAxis(view, access, axes[i]))
            && d.splits[loop] == LoopSplit(AxesOf(view, access, axes), d.cores)
    ensures forall c :: 0 <= c < d.cores ==> 0 <= Eval(d.owners[loop], c) < d.splits[loop]
  {
    assert ReadsLoop(view, access, d, loop);
    var listed, signatures, table :|
      LoopRead(view, access, loop, listed, d.splits[loop], signatures, table) && Follows(d.owners[loop], table);
    axes := listed;
    assert forall i :: 0 <= i < |axes| ==> axes[i] in axes;
  }

  /** The read division lists both split axes. */
  lemma ListsBoth(view: View, access: Access, loop: Symbol, driven: seq<int>, factors: seq<nat>, m: SlotMap, slot: Expr,
                  axes: seq<int>, a: int, b: int)
    requires Named(view, driven, factors, m, slot) && a in view.splits && b in view.splits && a != b
    requires forall i :: 0 <= i < |driven| ==> 0 <= driven[i] < |access.coords| && access.coords[driven[i]].symbols == {loop}
    requires Readable(view, access) && ListsAxes(view, access, loop, axes)
    ensures |axes| >= 2 && TwoAxes(view, access, loop, a, b)
  {
    DrivesAll(view, access, loop, driven, factors, m, slot, axes);
    assert a in axes && b in axes;
  }

  /** One core's slot survives the round trip. */
  lemma SameOwnerAt(view: View, access: Access, loop: Symbol, driven: seq<int>, split: int, slot: Expr, m: SlotMap,
                    order: seq<Symbol>, factors: seq<nat>, cells: seq<seq<int>>, d: Division, a: int, b: int, c: int)
    requires Named(view, driven, factors, m, slot) && NamesCells(m, driven, cells)
    requires CanonicalAxes(m, order, driven, factors, split) && Prod(factors) == split
    requires |access.sizes| == |access.coords| && loop in access.extents
    requires forall i :: 0 <= i < |driven| ==> 0 <= driven[i] < |access.coords| && access.coords[driven[i]].symbols == {loop}
    requires OnGrid(Ats(CoordsAt(access, driven)), SizesAt(access, driven), access.extents[loop], split, factors, cells)
    requires Readable(view, access) && StaysInside(view, access, d) && 0 <= c < d.cores
    requires loop in d.splits && d.splits[loop] == split && loop in d.owners
    requires 0 <= Eval(slot, c) < split && 0 <= Eval(d.owners[loop], c) < split
    requires TwoAxes(view, access, loop, a, b)
    ensures Eval(d.owners[loop], c) == Eval(slot, c)
  {
    var s, t := Eval(slot, c), Eval(d.owners[loop], c);
    forall i | 0 <= i < |driven| ensures Eval(m[PhysicalDim(driven[i])], s) == Eval(m[PhysicalDim(driven[i])], t) {
      SameDigit(view, access, loop, driven, split, slot, m, factors, cells, d, a, b, c, i);
    }
    SameDigitsSameSlot(m, order, driven, factors, split, s, t);
  }

  lemma SameDigitsSameSlot(m: SlotMap, order: seq<Symbol>, axes: seq<int>, factors: seq<nat>, split: int, s: int, t: int)
    requires Distinct(axes) && CanonicalAxes(m, order, axes, factors, split) && Prod(factors) == split
    requires forall i :: 0 <= i < |axes| ==>
               PhysicalDim(axes[i]) in m && Eval(m[PhysicalDim(axes[i])], s) == Eval(m[PhysicalDim(axes[i])], t)
    requires 0 <= s < split && 0 <= t < split
    ensures s == t
  {
    var dims := Synthetic(axes);
    OrderFacts(axes, factors, order);
    ZipMapAt(dims, factors);
    forall d | d in m ensures Eval(m[d], s) == Eval(m[d], t) {
      assert order[..|order|] == order;
      assert d in ZipMap(dims, factors);
      var i :| 0 <= i < |dims| && dims[i] == d;
    }
    assert SlotsAt(m, s) == SlotsAt(m, t);
    RadixInjective(m, order, SplitsOf(order, ZipMap(dims, factors)), s, t);
  }

  lemma CertifiedReadBack(view: View, access: Access, loop: Symbol, driven: seq<int>, split: int, slot: Expr, cores: int,
                          m: SlotMap, order: seq<Symbol>, factors: seq<nat>, cells: seq<seq<int>>, d: Division, axes: seq<int>,
                          a: int, b: int)
    requires Named(view, driven, factors, m, slot) && NamesCells(m, driven, cells)
    requires CanonicalAxes(m, order, driven, factors, split) && Prod(factors) == split
    requires |access.sizes| == |access.coords| && loop in access.extents
    requires forall i :: 0 <= i < |driven| ==> 0 <= driven[i] < |access.coords| && access.coords[driven[i]].symbols == {loop}
    requires OnGrid(Ats(CoordsAt(access, driven)), SizesAt(access, driven), access.extents[loop], split, factors, cells)
    requires forall c :: 0 <= c < cores ==> 0 <= Eval(slot, c) < split
    requires forall p :: 0 <= p < split ==> HasOwner(slot, cores, p)
    requires Readable(view, access) && StaysInside(view, access, d) && ListsAxes(view, access, loop, axes)
    requires loop in d.splits && loop in d.owners && d.cores == cores
    requires forall c :: 0 <= c < cores ==> 0 <= Eval(d.owners[loop], c) < d.splits[loop]
    requires forall i :: 0 <= i < |axes| ==> ReadableAxis(view, access, axes[i])
    requires d.splits[loop] == LoopSplit(AxesOf(view, access, axes), cores)
    requires |axes| >= 2 && TwoAxes(view, access, loop, a, b)
    ensures d.splits[loop] == split && SameSlot(d.owners[loop], slot, cores)
  {
    ReadsSameSplit(view, access, loop, driven, split, slot, cores, m, order, factors, axes);
    forall c | 0 <= c < cores ensures Eval(d.owners[loop], c) == Eval(slot, c) {
      SameOwnerAt(view, access, loop, driven, split, slot, m, order, factors, cells, d, a, b, c);
    }
  }

  lemma DrivenBy(view: View, access: Access, loop: Symbol, driven: seq<int>, factors: seq<nat>, m: SlotMap, slot: Expr,
                 a: int)
    requires Named(view, driven, factors, m, slot) && Readable(view, access) && a in view.splits
    requires forall i :: 0 <= i < |driven| ==> 0 <= driven[i] < |access.coords| && access.coords[driven[i]].symbols == {loop}
    ensures LoopOf(view, access, a) == loop
  {
    var i := ViewSlot(view, driven, factors, m, slot, a);
  }

  /** A view with two or more split axes whose splits multiply to the fused split,
      when it can be read back, gives every core the owner it was made from. */
  lemma ReadBackSameOwner(view: View, access: Access, loop: Symbol, split: int, slot: Expr, cores: int, d: Division,
                          a: int, b: int)
    requires Decomposed(view, access, loop, split, slot, cores)
    requires a in view.splits && b in view.splits && a != b
    requires Prod(SplitsAlong(view, Driven(access.coords, loop))) == split
    requires ReadsView(view, access, d)
    ensures loop in d.splits && d.splits[loop] == split
    ensures loop in d.owners && d.cores == cores && SameSlot(d.owners[loop], slot, cores)
  {
    var m, order, factors, cells :| Certified(view, access, loop, split, slot, cores, m, order, factors, cells);
    var driven := Driven(access.coords, loop);
    AxisViewNamed(driven, factors, m, slot, cores);
    AlongFactors(view, driven, factors, m, slot);
    ReadStaysInside(view, access, d);
    DrivenBy(view, access, loop, driven, factors, m, slot, a);
    var axes := ReadAxes(view, access, d, loop);
    ListsBoth(view, access, loop, driven, factors, m, slot, axes, a, b);
    CertifiedReadBack(view, access, loop, driven, split, slot, cores, m, order, factors, cells, d, axes, a, b);
  }
}
