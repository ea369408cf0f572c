/** Ownership read from physical slices through an access (`work_division_from_view` of
    `torch_spyre/_inductor/core_mapping.py`). */
module ViewOwnership {
  import opened Arith
  import opened Wrappers
  import opened Ownership
  import opened LoopRegions
  import opened LoopProofs

  function Sole(symbols: set<Symbol>): (loop: Symbol)
    requires |symbols| == 1
    ensures symbols == {loop}
  {
    SingleElement(symbols);
    var loop :| loop in symbols;
    loop
  }

  /** A device tensor as one access sees it. */
  datatype Access = Access(sizes: seq<int>, coords: seq<Coordinate>, extents: map<Symbol, int>)

  /** The split axis is a real one, divides evenly, and one loop drives it. */
  predicate ReadableAxis(view: View, access: Access, a: int) {
    && a in view.splits && a in view.slots
    && 0 <= a < |access.sizes| == |access.coords|
    && 0 < view.splits[a] && 0 < access.sizes[a] && access.sizes[a] % view.splits[a] == 0
    && |access.coords[a].symbols| == 1 && Sole(access.coords[a].symbols) in access.extents
  }

  function LoopOf(view: View, access: Access, a: int): Symbol
    requires ReadableAxis(view, access, a)
  {
    Sole(access.coords[a].symbols)
  }

  function AxisOf(view: View, access: Access, a: int): (axis: Axis)
    requires ReadableAxis(view, access, a)
    ensures ValidAxis(axis)
  {
    Axis(access.coords[a], access.sizes[a], view.splits[a], view.slots[a])
  }

  /** The loop extent that is proved: a loop with one split axis whose last stick
      is partly filled is read up to the padded extent. */
  function ProofExtent(view: View, access: Access, a: int, single: bool): int
    requires ReadableAxis(view, access, a)
  {
    var extent, stick := access.extents[LoopOf(view, access, a)], |access.sizes| - 1;
    if single && a != stick && stick !in view.splits && LoopOf(view, access, a) in access.coords[stick].symbols then
      var padded := access.sizes[a] * access.sizes[stick];
      if padded - access.sizes[stick] < extent <= padded then padded else extent
    else extent
  }

  /** No other split axis is driven by the same loop. */
  predicate SingleAxis(view: View, access: Access, a: int)
    requires ReadableAxis(view, access, a)
    requires forall b <- view.splits :: ReadableAxis(view, access, b)
  {
    forall b <- view.splits :: LoopOf(view, access, b) == LoopOf(view, access, a) ==> b == a
  }

  ghost predicate Readable(view: View, access: Access) {
    forall a :: a in view.splits ==> ReadableAxis(view, access, a)
  }

  function AxesOf(view: View, access: Access, axes: seq<int>): (r: seq<Axis>)
    requires forall i :: 0 <= i < |axes| ==> ReadableAxis(view, access, axes[i])
    ensures |r| == |axes|
    ensures forall i :: 0 <= i < |axes| ==> r[i] == AxisOf(view, access, axes[i]) && ValidAxis(r[i])
  {
    seq(|axes|, i requires 0 <= i < |axes| => AxisOf(view, access, axes[i]))
  }

  /** `axes` lists the split axes that `loop` drives. */
  ghost predicate ListsAxes(view: View, access: Access, loop: Symbol, axes: seq<int>)
    requires Readable(view, access)
  {
    && axes != [] && Distinct(axes)
    && forall a :: a in axes <==> a in view.splits && LoopOf(view, access, a) == loop
  }

  predicate SameAxes(axes: seq<Axis>, cores: int)
    requires axes != []
  {
    forall i :: 0 <= i < |axes| ==> axes[i].split == axes[0].split && SameSlot(axes[i].slot, axes[0].slot, cores)
  }

  function AxisSplits(axes: seq<Axis>): (s: seq<nat>)
    ensures |s| == |axes| && forall i :: 0 <= i < |axes| ==> s[i] == axes[i].split
  {
    seq(|axes|, i requires 0 <= i < |axes| => axes[i].split)
  }

  /** Axes that repeat one owner count once; independent axes multiply. */
  function LoopSplit(axes: seq<Axis>, cores: int): nat
    requires axes != []
  {
    if SameAxes(axes, cores) then axes[0].split else Prod(AxisSplits(axes))
  }

  /** What the division says about one loop. */
  ghost predicate LoopRead(view: View, access: Access, loop: Symbol, axes: seq<int>, split: nat, signatures: seq<seq<int>>,
                           table: seq<int>)
    requires Readable(view, access) && view.cores.Some?
  {
    && ListsAxes(view, access, loop, axes)
    && split == LoopSplit(AxesOf(view, access, axes), view.cores.value)
    && var extent := ProofExtent(view, access, axes[0], |axes| == 1);
       ValidLoop(extent, split)
       && Proven(AxesOf(view, access, axes), extent, split, view.cores.value, signatures, table)
  }

  /** The division owns one loop as the view's slices demand. */
  ghost predicate ReadsLoop(view: View, access: Access, d: Division, loop: Symbol)
    requires Readable(view, access) && view.cores.Some?
  {
    && loop in d.splits && loop in d.owners
    && exists axes, signatures, table ::
         LoopRead(view, access, loop, axes, d.splits[loop], signatures, table) && Follows(d.owners[loop], table)
  }

  /** The owner formula gives every core its entry of the table. */
  predicate Follows(owner: Expr, table: seq<int>) {
    forall c :: 0 <= c < |table| ==> Eval(owner, c) == table[c]
  }

  /** Every loop that drives a split axis is read. */
  ghost predicate ReadsView(view: View, access: Access, d: Division) {
    && Readable(view, access) && view.cores == Some(d.cores)
    && (forall a :: a in view.splits ==> LoopOf(view, access, a) in d.splits)
    && forall loop :: loop in d.splits ==> ReadsLoop(view, access, d, loop)
  }

  /** Every iteration a core owns touches, on every split axis, only the slice
      that core physically owns. */
  ghost predicate StaysInside(view: View, access: Access, d: Division)
    requires Readable(view, access)
  {
    forall a, c, x :: a in view.splits && 0 <= c < d.cores ==>
      TouchesOwnSlice(view, access, d, a, c, x)
  }

  ghost predicate TouchesOwnSlice(view: View, access: Access, d: Division, a: int, c: int, x: int)
    requires Readable(view, access) && a in view.splits
  {
    var loop, extent := LoopOf(view, access, a), ProofExtent(view, access, a, SingleAxis(view, access, a));
    && loop in d.splits && loop in d.owners && ValidLoop(extent, d.splits[loop]) && 0 < extent / d.splits[loop]
    && (0 <= x < extent && x / (extent / d.splits[loop]) == Eval(d.owners[loop], c) ==>
          access.coords[a].at(x) / SliceWidth(AxisOf(view, access, a)) == Eval(view.slots[a], c))
  }

  /** Every partition of every loop belongs to some core. */
  ghost predicate EveryPartitionOwned(d: Division) {
    forall loop :: loop in d.splits ==>
      loop in d.owners && forall p :: 0 <= p < d.splits[loop] ==> HasOwner(d.owners[loop], d.cores, p)
  }

  lemma TableHasOwner(owner: Expr, table: seq<int>, p: int)
    requires Follows(owner, table) && p in table
    ensures HasOwner(owner, |table|, p)
  {
    var c :| 0 <= c < |table| && table[c] == p;
    assert Eval(owner, c) == p;
  }

  lemma ReadOwnsPartitions(view: View, access: Access, d: Division)
    requires ReadsView(view, access, d)
    ensures EveryPartitionOwned(d)
  {
    forall loop | loop in d.splits
      ensures loop in d.owners && forall p :: 0 <= p < d.splits[loop] ==> HasOwner(d.owners[loop], d.cores, p)
    {
      assert ReadsLoop(view, access, d, loop);
      var axes, signatures, table :|
        LoopRead(view, access, loop, axes, d.splits[loop], signatures, table) && Follows(d.owners[loop], table);
      forall p | 0 <= p < d.splits[loop] ensures HasOwner(d.owners[loop], d.cores, p) {
        TableHasOwner(d.owners[loop], table, p);
      }
    }
  }

  lemma ReadStaysInside(view: View, access: Access, d: Division)
    requires ReadsView(view, access, d)
    ensures StaysInside(view, access, d)
  {
    forall a, c, x | a in view.splits && 0 <= c < d.cores ensures TouchesOwnSlice(view, access, d, a, c, x) {
      var loop := LoopOf(view, access, a);
      assert ReadsLoop(view, access, d, loop);
      var axes, signatures, table :|
        LoopRead(view, access, loop, axes, d.splits[loop], signatures, table) && Follows(d.owners[loop], table);
      ReadTouchesOwnSlice(view, access, d, loop, axes, signatures, table, a, c, x);
    }
  }

  lemma ReadTouchesOwnSlice(view: View, access: Access, d: Division, loop: Symbol, axes: seq<int>,
                            signatures: seq<seq<int>>, table: seq<int>, a: int, c: int, x: int)
    requires ReadsView(view, access, d) && loop in d.splits && loop in d.owners
    requires LoopRead(view, access, loop, axes, d.splits[loop], signatures, table) && Follows(d.owners[loop], table)
    requires a in view.splits && LoopOf(view, access, a) == loop && 0 <= c < d.cores
    ensures TouchesOwnSlice(view, access, d, a, c, x)
  {
    assert a in axes;
    var i :| 0 <= i < |axes| && axes[i] == a;
    var extent := ProofExtent(view, access, axes[0], |axes| == 1);
    assert axes[0] in axes;
    SingleIffOne(view, access, loop, axes, a);
    assert extent == ProofExtent(view, access, a, SingleAxis(view, access, a));
    ExactDiv(extent, d.splits[loop]);
    var listed := AxesOf(view, access, axes);
    if 0 <= x < extent && x / (extent / d.splits[loop]) == Eval(d.owners[loop], c) {
      assert Inside(listed, extent, d.splits[loop], table[c], signatures[table[c]]);
      assert listed[i].coord.at(x) / SliceWidth(listed[i]) == signatures[table[c]][i];
      assert SlotRow(listed, c)[i] == Eval(view.slots[a], c);
    }
  }

  lemma SingleIffOne(view: View, access: Access, loop: Symbol, axes: seq<int>, a: int)
    requires Readable(view, access) && ListsAxes(view, access, loop, axes) && a in axes
    ensures SingleAxis(view, access, a) <==> |axes| == 1
    ensures |axes| == 1 ==> axes[0] == a
  {
    assert axes[0] in axes;
    if |axes| > 1 {
      assert axes[1] in axes && axes[0] != axes[1];
    }
  }
}
