/** The proof that the partitions of one loop lie inside physical slices
    (`work_division_from_view` of `torch_spyre/_inductor/core_mapping.py`). */
module LoopProofs {
  import opened Arith
  import opened Wrappers
  import opened Ownership
  import opened LoopRegions

  const MAX_EXACT_OWNERSHIP_POINTS := 1024

  const MAX_EXACT_DIRECT_AXIS_POINTS := 65536

  /** A device coordinate: the loops it depends on, its value when it depends on
      one loop, and the term the index parser finds for a loop of given extent. */
  datatype Coordinate = Coordinate(symbols: set<Symbol>, at: int -> int, parse: int -> Option<Term>)

  /** The parser only accepts a term that is the coordinate on the whole loop. */
  ghost predicate Faithful(c: Coordinate) {
    forall e :: c.parse(e).Some? ==>
      ValidTerm(c.parse(e).value) && forall x :: 0 <= x < e ==> c.at(x) == TermAt(c.parse(e).value, x)
  }

  /** Per-core slicing of a buffer, keyed by device axis. */
  datatype View = View(splits: map<int, nat>, slots: map<int, Expr>, cores: Option<int>)

  /** One term per coordinate, or none when any coordinate has no term. */
  function ParseAll(coords: seq<Coordinate>, extent: int): (r: Option<seq<Term>>)
    ensures r.Some? ==> |r.value| == |coords| && forall i :: 0 <= i < |coords| ==> coords[i].parse(extent) == Some(r.value[i])
  {
    if coords == [] then Some([])
    else
      var head, tail := coords[0].parse(extent), ParseAll(coords[1..], extent);
      if head.Some? && tail.Some? then Some([head.value] + tail.value) else None
  }

  function Ats(coords: seq<Coordinate>): (fs: seq<int -> int>)
    ensures |fs| == |coords| && forall i :: 0 <= i < |coords| ==> fs[i] == coords[i].at
  {
    seq(|coords|, i requires 0 <= i < |coords| => coords[i].at)
  }

  lemma ParseAllParses(coords: seq<Coordinate>, extent: int)
    requires forall c :: c in coords ==> Faithful(c)
    ensures ParseAll(coords, extent).Some? ==> Parses(ParseAll(coords, extent).value, Ats(coords), extent)
  {
    if ParseAll(coords, extent).Some? {
      var terms := ParseAll(coords, extent).value;
      forall i | 0 <= i < |terms| ensures coords[i].parse(extent) == Some(terms[i]) && Faithful(coords[i]) {
        assert coords[i] in coords;
      }
    }
  }

  /** The axes one loop drives: coordinate, device extent, physical split, owner. */
  datatype Axis = Axis(coord: Coordinate, size: int, split: nat, slot: Expr)

  predicate ValidAxis(a: Axis) {
    0 < a.size && 0 < a.split && a.size % a.split == 0
  }

  /** The extent of one physical slice. */
  function SliceWidth(a: Axis): (w: int)
    requires ValidAxis(a)
    ensures 0 < w && a.size == w * a.split
  {
    ExactDiv(a.size, a.split);
    a.size / a.split
  }

  function Coords(axes: seq<Axis>): (cs: seq<Coordinate>)
    ensures |cs| == |axes| && forall i :: 0 <= i < |axes| ==> cs[i] == axes[i].coord
  {
    seq(|axes|, i requires 0 <= i < |axes| => axes[i].coord)
  }

  function Sizes(axes: seq<Axis>): (s: seq<int>)
    ensures |s| == |axes| && forall i :: 0 <= i < |axes| ==> s[i] == axes[i].size
  {
    seq(|axes|, i requires 0 <= i < |axes| => axes[i].size)
  }

  /** The slots one core owns on these axes. */
  function SlotRow(axes: seq<Axis>, core: int): (row: seq<int>)
    ensures |row| == |axes| && forall i :: 0 <= i < |axes| ==> row[i] == Eval(axes[i].slot, core)
  {
    seq(|axes|, i requires 0 <= i < |axes| => Eval(axes[i].slot, core))
  }

  /** The physical slices the lower corner of a region falls into. */
  function Signature(axes: seq<Axis>, region: seq<Bound>): (row: seq<int>)
    requires |region| == |axes| && forall i :: 0 <= i < |axes| ==> ValidAxis(axes[i])
    ensures |row| == |axes| && forall i :: 0 <= i < |axes| ==> row[i] == region[i].low / SliceWidth(axes[i])
  {
    seq(|axes|, i requires 0 <= i < |axes| => region[i].low / SliceWidth(axes[i]))
  }

  predicate CrossesSlices(axes: seq<Axis>, region: seq<Bound>)
    requires |region| == |axes| && forall i :: 0 <= i < |axes| ==> ValidAxis(axes[i])
  {
    exists i :: 0 <= i < |axes| && region[i].low / SliceWidth(axes[i]) != region[i].high / SliceWidth(axes[i])
  }

  /** Every value of loop partition `part` falls, on each axis, into the slice that
      `row` names. */
  ghost predicate Inside(axes: seq<Axis>, extent: int, split: int, part: int, row: seq<int>)
    requires ValidLoop(extent, split) && |row| == |axes| && forall i :: 0 <= i < |axes| ==> ValidAxis(axes[i])
  {
    ExactDiv(extent, split);
    forall i, x :: 0 <= i < |axes| && 0 <= x < extent && x / (extent / split) == part ==>
      axes[i].coord.at(x) / SliceWidth(axes[i]) == row[i]
  }

  lemma RegionInside(axes: seq<Axis>, extent: int, split: int, part: int, region: seq<Bound>)
    requires ValidLoop(extent, split) && 0 <= part < split
    requires forall i :: 0 <= i < |axes| ==> ValidAxis(axes[i])
    requires region == SlotBounds(extent, Ats(Coords(axes)), split, part)
    requires !CrossesSlices(axes, region)
    ensures Inside(axes, extent, split, part, Signature(axes, region))
  {
    var w := extent / split;
    SlotInside(extent, split, part);
    var lo, hi := part * w, (part + 1) * w - 1;
    forall i, x | 0 <= i < |axes| && 0 <= x < extent && x / w == part
      ensures axes[i].coord.at(x) / SliceWidth(axes[i]) == Signature(axes, region)[i]
    {
      DivModEq(x, w);
      assert lo <= x <= hi;
      OverTight(axes[i].coord.at, lo, hi);
      DivMono(region[i].low, axes[i].coord.at(x), SliceWidth(axes[i]));
      DivMono(axes[i].coord.at(x), region[i].high, SliceWidth(axes[i]));
    }
  }

  function IndexOfRow(rows: seq<seq<int>>, row: seq<int>): (r: Option<nat>)
    ensures r.Some? ==> r.value < |rows| && rows[r.value] == row
    ensures r.None? ==> row !in rows
  {
    if rows == [] then None
    else if rows[0] == row then Some(0)
    else
      var r := IndexOfRow(rows[1..], row);
      if r.Some? then Some(r.value + 1) else None
  }

  /** The proof for one loop: its partitions lie in distinct physical slices, each
      core owns the partition inside its own slices, and no partition is orphaned. */
  ghost predicate Proven(axes: seq<Axis>, extent: int, split: int, cores: int, signatures: seq<seq<int>>, table: seq<int>)
    requires ValidLoop(extent, split) && forall i :: 0 <= i < |axes| ==> ValidAxis(axes[i])
  {
    && |signatures| == split && |table| == cores
    && Distinct(signatures)
    && (forall p :: 0 <= p < split ==> |signatures[p]| == |axes| && Inside(axes, extent, split, p, signatures[p]))
    && (forall c :: 0 <= c < cores ==> 0 <= table[c] < split && signatures[table[c]] == SlotRow(axes, c))
    && (forall p :: 0 <= p < split ==> p in table)
  }

  /** One signature per partition, unless a partition crosses physical slices. */
  method Signatures(axes: seq<Axis>, extent: int, split: int, regions: seq<seq<Bound>>)
    returns (r: Result<seq<seq<int>>>)
    requires ValidLoop(extent, split) && |regions| == split
    requires forall i :: 0 <= i < |axes| ==> ValidAxis(axes[i])
    requires forall p :: 0 <= p < split ==>
               |regions[p]| == |axes| && regions[p] == SlotBounds(extent, Ats(Coords(axes)), split, p)
    ensures r.Err? ==> exists p :: 0 <= p < split && CrossesSlices(axes, regions[p])
    ensures r.Ok? ==> |r.value| == split && forall p :: 0 <= p < split ==>
              r.value[p] == Signature(axes, regions[p]) && Inside(axes, extent, split, p, r.value[p])
  {
    var signatures := [];
    for p := 0 to split
      invariant |signatures| == p
      invariant forall q :: 0 <= q < p ==>
                  signatures[q] == Signature(axes, regions[q]) && Inside(axes, extent, split, q, signatures[q])
    {
      if CrossesSlices(axes, regions[p]) {
        return Err;
      }
      RegionInside(axes, extent, split, p, regions[p]);
      signatures := signatures + [Signature(axes, regions[p])];
    }
    r := Ok(signatures);
  }

  /** The partition whose slices each core owns. */
  method OwnerTable(axes: seq<Axis>, signatures: seq<seq<int>>, cores: int) returns (r: Result<seq<int>>)
    requires 0 < cores
    ensures r.Err? ==> exists c :: 0 <= c < cores && SlotRow(axes, c) !in signatures
    ensures r.Ok? ==> |r.value| == cores && forall c :: 0 <= c < cores ==>
              0 <= r.value[c] < |signatures| && signatures[r.value[c]] == SlotRow(axes, c)
  {
    var table := [];
    for c := 0 to cores
      invariant |table| == c
      invariant forall k :: 0 <= k < c ==> 0 <= table[k] < |signatures| && signatures[table[k]] == SlotRow(axes, k)
    {
      var at := IndexOfRow(signatures, SlotRow(axes, c));
      if at.None? {
        return Err;
      }
      table := table + [at.value];
    }
    r := Ok(table);
  }

  datatype LoopProof = LoopProof(signatures: seq<seq<int>>, table: seq<int>)

  /** Every partition stays on the device axes. */
  ghost predicate OnAxes(axes: seq<Axis>, extent: int, split: int)
    requires ValidLoop(extent, split)
  {
    forall p :: 0 <= p < split ==> SlotAccepted(extent, Ats(Coords(axes)), Sizes(axes), split, false, p)
  }

  /** There is a proof for the loop. */
  ghost predicate Provable(axes: seq<Axis>, extent: int, split: int, cores: int)
    requires ValidLoop(extent, split) && forall i :: 0 <= i < |axes| ==> ValidAxis(axes[i])
  {
    exists signatures, table :: Proven(axes, extent, split, cores, signatures, table)
  }

  /** A partition inside one slice per axis has that slice as its signature. */
  lemma InsideSignature(axes: seq<Axis>, extent: int, split: int, part: int, region: seq<Bound>, row: seq<int>)
    requires ValidLoop(extent, split) && 0 <= part < split && |row| == |axes|
    requires forall i :: 0 <= i < |axes| ==> ValidAxis(axes[i])
    requires region == SlotBounds(extent, Ats(Coords(axes)), split, part)
    requires Inside(axes, extent, split, part, row)
    ensures !CrossesSlices(axes, region) && Signature(axes, region) == row
  {
    var w := extent / split;
    SlotInside(extent, split, part);
    var lo, hi := part * w, (part + 1) * w - 1;
    forall i | 0 <= i < |axes|
      ensures region[i].low / SliceWidth(axes[i]) == row[i] && region[i].high / SliceWidth(axes[i]) == row[i]
    {
      OverTight(axes[i].coord.at, lo, hi);
      var x :| lo <= x <= hi && axes[i].coord.at(x) == region[i].low;
      var y :| lo <= y <= hi && axes[i].coord.at(y) == region[i].high;
      DivModUnique(x, w, part, x - lo);
      DivModUnique(y, w, part, y - lo);
    }
  }

  /** The signatures of a proof are the ones computed from the regions. */
  lemma SameSignatures(axes: seq<Axis>, extent: int, split: int, cores: int, regions: seq<seq<Bound>>,
                       signatures: seq<seq<int>>, table: seq<int>)
    requires ValidLoop(extent, split) && |regions| == split
    requires forall i :: 0 <= i < |axes| ==> ValidAxis(axes[i])
    requires forall p :: 0 <= p < split ==>
               |regions[p]| == |axes| && regions[p] == SlotBounds(extent, Ats(Coords(axes)), split, p)
    requires Proven(axes, extent, split, cores, signatures, table)
    ensures forall p :: 0 <= p < split ==>
              !CrossesSlices(axes, regions[p]) && Signature(axes, regions[p]) == signatures[p]
  {
    forall p | 0 <= p < split ensures !CrossesSlices(axes, regions[p]) && Signature(axes, regions[p]) == signatures[p] {
      InsideSignature(axes, extent, split, p, regions[p], signatures[p]);
    }
  }

  /** The owners of a proof are determined by its signatures. */
  lemma SameTable(axes: seq<Axis>, signatures: seq<seq<int>>, table: seq<int>, table': seq<int>, p: int)
    requires Distinct(signatures) && |table| == |table'| && p in table
    requires forall c :: 0 <= c < |table| ==> 0 <= table[c] < |signatures| && signatures[table[c]] == SlotRow(axes, c)
    requires forall c :: 0 <= c < |table| ==> 0 <= table'[c] < |signatures| && signatures[table'[c]] == SlotRow(axes, c)
    ensures p in table'
  {
    var c :| 0 <= c < |table| && table[c] == p;
    assert table'[c] == table[c];
  }

  /** The signatures and owners of one loop, if they make a proof. */
  method ProveRegions(axes: seq<Axis>, extent: int, split: int, cores: int, regions: seq<seq<Bound>>)
    returns (r: Result<LoopProof>)
    requires ValidLoop(extent, split) && 0 < cores && |regions| == split
    requires forall i :: 0 <= i < |axes| ==> ValidAxis(axes[i])
    requires forall p :: 0 <= p < split ==>
               |regions[p]| == |axes| && regions[p] == SlotBounds(extent, Ats(Coords(axes)), split, p)
    ensures r.Ok? <==> Provable(axes, extent, split, cores)
    ensures r.Ok? ==> Proven(axes, extent, split, cores, r.value.signatures, r.value.table)
  {
    ghost var sigs: seq<seq<int>>, tab: seq<int> := [], [];
    ghost var provable := Provable(axes, extent, split, cores);
    if provable {
      sigs, tab :| Proven(axes, extent, split, cores, sigs, tab);
      SameSignatures(axes, extent, split, cores, regions, sigs, tab);
    }
    var signatures := Signatures(axes, extent, split, regions);
    if signatures.Err? {
      return Err;
    }
    assert provable ==> signatures.value == sigs;
    if !Distinct(signatures.value) {
      return Err;
    }
    var table := OwnerTable(axes, signatures.value, cores);
    if table.Err? {
      return Err;
    }
    forall p | provable && 0 <= p < split ensures p in table.value {
      SameTable(axes, sigs, tab, table.value, p);
    }
    if exists p :: 0 <= p < split && p !in table.value {
      return Err;
    }
    assert Proven(axes, extent, split, cores, signatures.value, table.value);
    r := Ok(LoopProof(signatures.value, table.value));
  }

  method ProveLoop(axes: seq<Axis>, extent: int, split: int, cores: int) returns (r: Result<LoopProof>)
    requires ValidLoop(extent, split) && 0 < cores
    requires forall i :: 0 <= i < |axes| ==> ValidAxis(axes[i]) && Faithful(axes[i].coord)
    ensures r.Ok? <==> OnAxes(axes, extent, split) && Provable(axes, extent, split, cores)
    ensures r.Ok? ==> Proven(axes, extent, split, cores, r.value.signatures, r.value.table)
  {
    var coords := Coords(axes);
    ParseAllParses(coords, extent);
    var regions := Regions(extent, Ats(coords), ParseAll(coords, extent), Sizes(axes), split, false);
    if regions.Err? {
      return Err;
    }
    r := ProveRegions(axes, extent, split, cores, regions.value);
  }
}
