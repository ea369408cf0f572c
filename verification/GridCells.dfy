/** Loop partitions as cells of a grid over device axes (`decompose_fused_split_view` of
    `torch_spyre/_inductor/core_mapping.py`). */
module GridCells {
  import opened Arith
  import opened Wrappers
  import opened LoopRegions

  /** Cell `cell` of an axis cut into `factor` equal slices. */
  function CellBound(size: int, factor: nat, cell: int): Bound
    requires 0 < factor
  {
    var w := size / factor;
    Bound(cell * w, cell * w + w - 1)
  }

  /** Every partition fills, one-to-one, one cell of a grid over the axes. */
  ghost predicate OnGrid(ats: seq<int -> int>, sizes: seq<int>, extent: int, split: int, factors: seq<nat>,
                         cells: seq<seq<int>>)
  {
    && ValidLoop(extent, split) && |ats| == |sizes| == |factors| && |cells| == split
    && (forall i :: 0 <= i < |sizes| ==> 0 < factors[i] && 0 < sizes[i] && sizes[i] % factors[i] == 0)
    && forall s :: 0 <= s < split ==>
         && SlotAccepted(extent, ats, sizes, split, true, s)
         && InCell(SlotBounds(extent, ats, split, s), sizes, factors, cells[s])
  }

  ghost predicate InCell(bounds: seq<Bound>, sizes: seq<int>, factors: seq<nat>, cell: seq<int>)
    requires |sizes| == |factors| && forall i :: 0 <= i < |sizes| ==> 0 < factors[i]
  {
    && |bounds| == |cell| == |sizes|
    && forall i :: 0 <= i < |sizes| ==> 0 <= cell[i] < factors[i] && bounds[i] == CellBound(sizes[i], factors[i], cell[i])
  }

  /** Widths that cut every axis evenly. */
  predicate Divide(widths: seq<nat>, sizes: seq<int>) {
    |widths| == |sizes| && forall i :: 0 <= i < |sizes| ==> 0 < widths[i] && 0 < sizes[i] && sizes[i] % widths[i] == 0
  }

  function Quotients(sizes: seq<int>, widths: seq<nat>): (factors: seq<nat>)
    requires Divide(widths, sizes)
    ensures |factors| == |sizes|
    ensures forall i :: 0 <= i < |sizes| ==>
              0 < factors[i] == sizes[i] / widths[i] && sizes[i] == factors[i] * widths[i]
              && sizes[i] % factors[i] == 0 && sizes[i] / factors[i] == widths[i]
    decreases sizes
  {
    if sizes == [] then []
    else
      ExactDiv(sizes[0], widths[0]);
      DivModUnique(sizes[0], sizes[0] / widths[0], widths[0], 0);
      [sizes[0] / widths[0]] + Quotients(sizes[1..], widths[1..])
  }

  function Cell(region: seq<Bound>, widths: seq<nat>): (cell: seq<int>)
    requires |region| == |widths| && AllPositive(widths)
    ensures |cell| == |region| && forall i :: 0 <= i < |region| ==> cell[i] == region[i].low / widths[i]
  {
    seq(|region|, i requires 0 <= i < |region| => region[i].low / widths[i])
  }

  predicate Aligned(region: seq<Bound>, widths: seq<nat>)
    requires |region| == |widths| && AllPositive(widths)
  {
    forall i :: 0 <= i < |region| ==> region[i].low % widths[i] == 0
  }

  lemma AlignedInCell(region: seq<Bound>, sizes: seq<int>, widths: seq<nat>)
    requires |region| == |sizes| && Ordered(region) && OnAxis(region, sizes)
    requires widths == Widths(region) && Divide(widths, sizes) && Aligned(region, widths)
    ensures InCell(region, sizes, Quotients(sizes, widths), Cell(region, widths))
  {
    var factors := Quotients(sizes, widths);
    forall i | 0 <= i < |sizes|
      ensures 0 <= Cell(region, widths)[i] < factors[i]
      ensures region[i] == CellBound(sizes[i], factors[i], Cell(region, widths)[i])
    {
      CellOf(region[i], sizes[i], widths[i], factors[i]);
    }
  }

  /** Every region is the cell that `cells` names of one grid, and some axis is cut. */
  ghost predicate GridFits(sizes: seq<int>, regions: seq<seq<Bound>>, factors: seq<nat>, cells: seq<seq<int>>) {
    && |factors| == |sizes| && |cells| == |regions|
    && (forall i :: 0 <= i < |sizes| ==> 0 < factors[i] && 0 < sizes[i] && sizes[i] % factors[i] == 0)
    && (exists i :: 0 <= i < |sizes| && factors[i] > 1)
    && forall s :: 0 <= s < |regions| ==> InCell(regions[s], sizes, factors, cells[s])
  }

  /** A cell's bounds tell its width, its factor and its number. */
  lemma CellTells(b: Bound, size: int, factor: nat, cell: int)
    requires 0 < factor && 0 < size && size % factor == 0 && 0 <= cell < factor && b == CellBound(size, factor, cell)
    ensures var width := b.high - b.low + 1;
            && 0 < width == size / factor && size % width == 0 && size / width == factor
            && b.low % width == 0 && b.low / width == cell
  {
    ExactDiv(size, factor);
    var width := size / factor;
    DivModUnique(size, width, factor, 0);
    DivModUnique(b.low, width, cell, 0);
  }

  /** So the grid can be read from any of its cells. */
  lemma CellsTell(region: seq<Bound>, sizes: seq<int>, factors: seq<nat>, cell: seq<int>)
    requires |factors| == |sizes|
    requires forall i :: 0 <= i < |sizes| ==> 0 < factors[i] && 0 < sizes[i] && sizes[i] % factors[i] == 0
    requires InCell(region, sizes, factors, cell) && Ordered(region)
    ensures var widths := Widths(region);
            && Divide(widths, sizes) && AllPositive(widths) && Aligned(region, widths)
            && Quotients(sizes, widths) == factors && Cell(region, widths) == cell
            && forall i :: 0 <= i < |sizes| ==> widths[i] == sizes[i] / factors[i]
  {
    var widths := Widths(region);
    forall i | 0 <= i < |sizes|
      ensures 0 < widths[i] == sizes[i] / factors[i] && sizes[i] % widths[i] == 0 && sizes[i] / widths[i] == factors[i]
      ensures region[i].low % widths[i] == 0 && region[i].low / widths[i] == cell[i]
    {
      CellTells(region[i], sizes[i], factors[i], cell[i]);
    }
  }

  /** What a fitting grid says about region s, given the widths of the first. */
  lemma FitsAt(sizes: seq<int>, regions: seq<seq<Bound>>, factors: seq<nat>, cells: seq<seq<int>>, s: nat)
    requires GridFits(sizes, regions, factors, cells) && s < |regions|
    requires forall t :: 0 <= t < |regions| ==> |regions[t]| == |sizes| && Ordered(regions[t])
    ensures var widths := Widths(regions[0]);
            && Divide(widths, sizes) && AllPositive(widths) && Widths(regions[s]) == widths && Aligned(regions[s], widths)
            && Quotients(sizes, widths) == factors && Cell(regions[s], widths) == cells[s]
  {
    CellsTell(regions[0], sizes, factors, cells[0]);
    CellsTell(regions[s], sizes, factors, cells[s]);
    assert Widths(regions[s]) == Widths(regions[0]);
  }

  /** There is at most one such grid. */
  lemma GridUnique(sizes: seq<int>, regions: seq<seq<Bound>>, factors: seq<nat>, cells: seq<seq<int>>,
                   factors': seq<nat>, cells': seq<seq<int>>)
    requires GridFits(sizes, regions, factors, cells) && GridFits(sizes, regions, factors', cells') && 0 < |regions|
    requires forall t :: 0 <= t < |regions| ==> |regions[t]| == |sizes| && Ordered(regions[t])
    ensures factors == factors' && cells == cells'
  {
    FitsAt(sizes, regions, factors, cells, 0);
    FitsAt(sizes, regions, factors', cells', 0);
    forall s | 0 <= s < |regions| ensures cells[s] == cells'[s] {
      FitsAt(sizes, regions, factors, cells, s);
      FitsAt(sizes, regions, factors', cells', s);
    }
  }

  /** What a fitting grid says about every region, if there is one. */
  ghost predicate AllFit(sizes: seq<int>, regions: seq<seq<Bound>>, widths: seq<nat>)
    requires forall t :: 0 <= t < |regions| ==> |regions[t]| == |sizes| == |widths| && Ordered(regions[t])
    requires AllPositive(widths)
  {
    && Divide(widths, sizes) && (exists i :: 0 <= i < |sizes| && Quotients(sizes, widths)[i] > 1)
    && forall s :: 0 <= s < |regions| ==> Widths(regions[s]) == widths && Aligned(regions[s], widths)
  }

  lemma FitsAll(sizes: seq<int>, regions: seq<seq<Bound>>, factors: seq<nat>, cells: seq<seq<int>>)
    requires GridFits(sizes, regions, factors, cells) && 0 < |regions|
    requires forall t :: 0 <= t < |regions| ==> |regions[t]| == |sizes| && Ordered(regions[t])
    ensures AllFit(sizes, regions, Widths(regions[0]))
  {
    FitsAt(sizes, regions, factors, cells, 0);
    forall s | 0 <= s < |regions|
      ensures Widths(regions[s]) == Widths(regions[0]) && Aligned(regions[s], Widths(regions[0]))
    {
      FitsAt(sizes, regions, factors, cells, s);
    }
  }

  /** The grid that regions of one common shape lie on, exactly when there is one. */
  method FindGrid(sizes: seq<int>, regions: seq<seq<Bound>>) returns (r: Option<(seq<nat>, seq<seq<int>>)>)
    requires 0 < |regions|
    requires forall s :: 0 <= s < |regions| ==>
               |regions[s]| == |sizes| && Ordered(regions[s]) && OnAxis(regions[s], sizes)
    ensures r.Some? ==> GridFits(sizes, regions, r.value.0, r.value.1)
    ensures r.None? ==> forall factors, cells :: !GridFits(sizes, regions, factors, cells)
  {
    var widths := Widths(regions[0]);
    forall f, c | GridFits(sizes, regions, f, c) ensures AllFit(sizes, regions, widths) {
      FitsAll(sizes, regions, f, c);
    }
    if !Divide(widths, sizes) {
      return None;
    }
    var factors := Quotients(sizes, widths);
    var cells := [];
    for s := 0 to |regions|
      invariant |cells| == s
      invariant forall t :: 0 <= t < s ==> InCell(regions[t], sizes, factors, cells[t])
    {
      if Widths(regions[s]) != widths || !Aligned(regions[s], widths) {
        return None;
      }
      AlignedInCell(regions[s], sizes, widths);
      cells := cells + [Cell(regions[s], widths)];
    }
    if forall i :: 0 <= i < |sizes| ==> factors[i] <= 1 {
      return None;
    }
    r := Some((factors, cells));
  }

  lemma CellOf(b: Bound, size: int, width: int, factor: nat)
    requires 0 <= b.low <= b.high < size && b.high - b.low + 1 == width && b.low % width == 0
    requires 0 < factor && size == factor * width && size / factor == width
    ensures 0 <= b.low / width < factor && b == CellBound(size, factor, b.low / width)
  {
    ExactDiv(b.low, width);
    DivBounds(b.low, width, 0, factor);
  }
}
