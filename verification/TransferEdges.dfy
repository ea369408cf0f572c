/** Which cores exchange data between two partitions of one domain
    (`transfer_edges` of `torch_spyre/_inductor/core_mapping.py`). */
module TransferEdges {
  import opened Arith
  import opened DenseLayout
  import opened DensePartition
  import opened Transfer
  import opened Certify

  type Slots<K> = map<K, int>

  /** Slot a of an parts and slot b of bn parts of one axis overlap. */
  predicate Overlap(a: int, an: int, b: int, bn: int) {
    a * bn < (b + 1) * an && b * an < (a + 1) * bn
  }

  predicate OverlapsOn<K(==)>(dim: K, sourceSplits: map<K, int>, destSplits: map<K, int>, source: Slots<K>, dest: Slots<K>) {
    Overlap(Get(source, dim, 0), Get(sourceSplits, dim, 1), Get(dest, dim, 0), Get(destSplits, dim, 1))
  }

  /** Whether two cores' slices overlap on every split dimension. */
  predicate Edge<K(==)>(sourceSplits: map<K, int>, destSplits: map<K, int>, source: Slots<K>, dest: Slots<K>) {
    forall dim <- sourceSplits.Keys + destSplits.Keys :: OverlapsOn(dim, sourceSplits, destSplits, source, dest)
  }

  method TransferEdges<K(==)>(sourceSplits: map<K, int>, destSplits: map<K, int>, sourceMap: map<int, Slots<K>>,
                              destMap: map<int, Slots<K>>)
    returns (edges: set<(int, int)>)
    ensures forall s, d :: (s, d) in edges <==>
              s in sourceMap && d in destMap && Edge(sourceSplits, destSplits, sourceMap[s], destMap[d])
  {
    edges := {};
    var sources := Listing(sourceMap.Keys);
    var dests := Listing(destMap.Keys);
    for i := 0 to |sources|
      invariant forall s, d :: (s, d) in edges <==>
                  s in sources[..i] && d in destMap && Edge(sourceSplits, destSplits, sourceMap[s], destMap[d])
    {
      var s := sources[i];
      assert s in sources;
      var row := EdgesFrom(sourceSplits, destSplits, s, sourceMap[s], destMap, dests);
      edges := edges + row;
    }
  }

  /** The edges that leave one source core. */
  method EdgesFrom<K(==)>(sourceSplits: map<K, int>, destSplits: map<K, int>, s: int, source: Slots<K>,
                          destMap: map<int, Slots<K>>, dests: seq<int>)
    returns (row: set<(int, int)>)
    requires forall d :: d in dests <==> d in destMap
    ensures forall c, d :: (c, d) in row <==> c == s && d in destMap && Edge(sourceSplits, destSplits, source, destMap[d])
  {
    row := {};
    for j := 0 to |dests|
      invariant forall c, d :: (c, d) in row <==>
                  c == s && d in dests[..j] && Edge(sourceSplits, destSplits, source, destMap[d])
    {
      var d := dests[j];
      assert d in dests;
      if Edge(sourceSplits, destSplits, source, destMap[d]) {
        row := row + {(s, d)};
      }
    }
  }

  // --- Edges are shared elements ---

  /** Overlap compares fractions of the axis, whatever its extent. */
  lemma OverlapScaled(a: int, an: int, b: int, bn: int, u: int, v: int)
    requires 0 < an && 0 < bn && 0 < u && an * u == bn * v
    ensures Overlap(a, an, b, bn) <==> a * u < (b + 1) * v && b * v < (a + 1) * u
  {
    Scaled(a, an, b + 1, bn, u, v);
    Scaled(b, bn, a + 1, an, v, u);
  }

  lemma Scaled(x: int, xn: int, y: int, yn: int, u: int, v: int)
    requires 0 < xn && 0 < yn && xn * u == yn * v && 0 < xn * u
    ensures x * yn < y * xn <==> x * u < y * v
  {
    var n := xn * u;
    assert (x * u) * (xn * yn) == (x * yn) * n;
    assert (y * v) * (xn * yn) == (y * xn) * n;
    MulPositive(xn, yn);
    SameOrder(x * u, y * v, xn * yn);
    SameOrder(x * yn, y * xn, n);
  }

  lemma SameOrder(x: int, y: int, d: int)
    requires 0 < d
    ensures x * d < y * d <==> x < y
  {
    if x < y {
      MulMono(x + 1, y, d);
    } else {
      MulMono(y, x, d);
    }
  }

  /** The dimensions of the domain, cut evenly by one side's splits. */
  ghost predicate Divides<K>(extents: map<K, int>, splits: map<K, int>) {
    && splits.Keys <= extents.Keys
    && forall dim :: dim in extents ==>
         0 < extents[dim] && 0 < Get(splits, dim, 1) && extents[dim] % Get(splits, dim, 1) == 0
  }

  ghost predicate SlotsFit<K>(extents: map<K, int>, splits: map<K, int>, slots: Slots<K>) {
    forall dim :: dim in extents ==> 0 <= Get(slots, dim, 0) < Get(splits, dim, 1)
  }

  ghost function Width<K>(extents: map<K, int>, splits: map<K, int>, dim: K): (w: int)
    requires Divides(extents, splits) && dim in extents
    ensures 0 < w && extents[dim] == w * Get(splits, dim, 1)
  {
    ExactDiv(extents[dim], Get(splits, dim, 1));
    extents[dim] / Get(splits, dim, 1)
  }

  /** The element at `point` belongs to the slice the slots name. */
  ghost predicate Owns<K(!new)>(extents: map<K, int>, splits: map<K, int>, slots: Slots<K>, point: map<K, int>)
    requires Divides(extents, splits)
  {
    forall dim :: dim in extents ==>
      dim in point && 0 <= point[dim] < extents[dim]
      && point[dim] / Width(extents, splits, dim) == Get(slots, dim, 0)
  }

  /** Slices of one axis meet exactly when their slots overlap. */
  lemma AxisMeets(a: int, an: int, u: int, b: int, bn: int, v: int)
    requires 0 < an && 0 < bn && 0 < u && an * u == bn * v
    ensures IntervalsOverlap(a * u, a * u + u, b * v, b * v + v) <==> Overlap(a, an, b, bn)
  {
    OverlapScaled(a, an, b, bn, u, v);
    assert (a + 1) * u == a * u + u && (b + 1) * v == b * v + v;
  }

  /** One dimension of an element two slices share. */
  lemma SharedSlot(a: int, an: int, b: int, bn: int, u: int, v: int) returns (x: int)
    requires 0 <= a < an && 0 <= b < bn && 0 < u && 0 < v && an * u == bn * v && Overlap(a, an, b, bn)
    ensures 0 <= x < an * u && x / u == a && x / v == b
  {
    AxisMeets(a, an, u, b, bn, v);
    x := Max(a * u, b * v);
    InSlot(a, an, u, x);
    InSlot(b, bn, v, x);
  }

  lemma InSlot(slot: int, split: int, size: int, x: int)
    requires 0 <= slot < split && 0 < size && slot * size <= x < slot * size + size
    ensures 0 <= x < split * size && x / size == slot
  {
    SlotInside(slot, split, size);
    QuotientInterval(x, size, slot);
  }

  lemma NoSharedSlot(a: int, an: int, b: int, bn: int, u: int, v: int, x: int)
    requires 0 < an && 0 < bn && 0 < u && 0 < v && an * u == bn * v && x / u == a && x / v == b
    ensures Overlap(a, an, b, bn)
  {
    AxisMeets(a, an, u, b, bn, v);
    QuotientInterval(x, u, a);
    QuotientInterval(x, v, b);
  }

  lemma Unsplit(a: int, b: int)
    requires a == 0 && b == 0
    ensures Overlap(a, 1, b, 1)
  {
  }

  lemma EdgeOn<K(!new)>(extents: map<K, int>, sourceSplits: map<K, int>, destSplits: map<K, int>, source: Slots<K>, dest: Slots<K>,
                        dim: K)
    requires Divides(extents, sourceSplits) && Divides(extents, destSplits) && dim in extents
    requires SlotsFit(extents, sourceSplits, source) && SlotsFit(extents, destSplits, dest)
    requires Edge(sourceSplits, destSplits, source, dest)
    ensures OverlapsOn(dim, sourceSplits, destSplits, source, dest)
  {
    if dim !in sourceSplits && dim !in destSplits {
      Unsplit(Get(source, dim, 0), Get(dest, dim, 0));
    }
  }

  /** The element an edge's slices share on one dimension. */
  lemma EdgePoint<K(!new)>(extents: map<K, int>, sourceSplits: map<K, int>, destSplits: map<K, int>, source: Slots<K>,
                           dest: Slots<K>, dim: K)
    returns (x: int)
    requires Divides(extents, sourceSplits) && Divides(extents, destSplits) && dim in extents
    requires SlotsFit(extents, sourceSplits, source) && SlotsFit(extents, destSplits, dest)
    requires OverlapsOn(dim, sourceSplits, destSplits, source, dest)
    ensures 0 <= x < extents[dim]
    ensures x / Width(extents, sourceSplits, dim) == Get(source, dim, 0)
    ensures x / Width(extents, destSplits, dim) == Get(dest, dim, 0)
  {
    x := SharedSlot(Get(source, dim, 0), Get(sourceSplits, dim, 1), Get(dest, dim, 0), Get(destSplits, dim, 1),
                    Width(extents, sourceSplits, dim), Width(extents, destSplits, dim));
  }

  ghost predicate SharesElement<K(!new)>(extents: map<K, int>, sourceSplits: map<K, int>, destSplits: map<K, int>,
                                         source: Slots<K>, dest: Slots<K>)
    requires Divides(extents, sourceSplits) && Divides(extents, destSplits)
  {
    exists point :: Owns(extents, sourceSplits, source, point) && Owns(extents, destSplits, dest, point)
  }

  ghost predicate SharedAt<K(!new)>(extents: map<K, int>, sourceSplits: map<K, int>, destSplits: map<K, int>,
                                    source: Slots<K>, dest: Slots<K>, dim: K, x: int)
    requires Divides(extents, sourceSplits) && Divides(extents, destSplits) && dim in extents
  {
    && 0 <= x < extents[dim]
    && x / Width(extents, sourceSplits, dim) == Get(source, dim, 0)
    && x / Width(extents, destSplits, dim) == Get(dest, dim, 0)
  }

  lemma EdgeShares<K(!new)>(extents: map<K, int>, sourceSplits: map<K, int>, destSplits: map<K, int>, source: Slots<K>,
                            dest: Slots<K>)
    requires Divides(extents, sourceSplits) && Divides(extents, destSplits)
    requires forall dim :: dim in extents ==> exists x :: SharedAt(extents, sourceSplits, destSplits, source, dest, dim, x)
    ensures SharesElement(extents, sourceSplits, destSplits, source, dest)
  {
    var point := map dim | dim in extents ::
      var x :| SharedAt(extents, sourceSplits, destSplits, source, dest, dim, x); x;
    assert Owns(extents, sourceSplits, source, point) && Owns(extents, destSplits, dest, point);
  }

  lemma SharesEdge<K(!new)>(extents: map<K, int>, sourceSplits: map<K, int>, destSplits: map<K, int>, source: Slots<K>,
                            dest: Slots<K>, point: map<K, int>)
    requires Divides(extents, sourceSplits) && Divides(extents, destSplits)
    requires Owns(extents, sourceSplits, source, point) && Owns(extents, destSplits, dest, point)
    ensures Edge(sourceSplits, destSplits, source, dest)
  {
    forall dim | dim in sourceSplits.Keys + destSplits.Keys
      ensures OverlapsOn(dim, sourceSplits, destSplits, source, dest)
    {
      NoSharedSlot(Get(source, dim, 0), Get(sourceSplits, dim, 1), Get(dest, dim, 0), Get(destSplits, dim, 1),
                   Width(extents, sourceSplits, dim), Width(extents, destSplits, dim), point[dim]);
    }
  }

  /** Two cores exchange data exactly when their slices share an element, for every
      extent both sides divide. */
  lemma EdgeIffShared<K(!new)>(extents: map<K, int>, sourceSplits: map<K, int>, destSplits: map<K, int>, source: Slots<K>,
                               dest: Slots<K>)
    requires Divides(extents, sourceSplits) && Divides(extents, destSplits)
    requires SlotsFit(extents, sourceSplits, source) && SlotsFit(extents, destSplits, dest)
    ensures Edge(sourceSplits, destSplits, source, dest) <==>
            SharesElement(extents, sourceSplits, destSplits, source, dest)
  {
    if Edge(sourceSplits, destSplits, source, dest) {
      forall dim | dim in extents ensures exists x :: SharedAt(extents, sourceSplits, destSplits, source, dest, dim, x) {
        EdgeOn(extents, sourceSplits, destSplits, source, dest, dim);
        var x := EdgePoint(extents, sourceSplits, destSplits, source, dest, dim);
        assert SharedAt(extents, sourceSplits, destSplits, source, dest, dim, x);
      }
      EdgeShares(extents, sourceSplits, destSplits, source, dest);
    }
    if SharesElement(extents, sourceSplits, destSplits, source, dest) {
      var point :| Owns(extents, sourceSplits, source, point) && Owns(extents, destSplits, dest, point);
      SharesEdge(extents, sourceSplits, destSplits, source, dest, point);
    }
  }

  /** Swapping the sides turns every edge around. */
  lemma EdgeSwaps<K>(sourceSplits: map<K, int>, destSplits: map<K, int>, source: Slots<K>, dest: Slots<K>)
    ensures Edge(sourceSplits, destSplits, source, dest) <==> Edge(destSplits, sourceSplits, dest, source)
  {
    forall dim | dim in sourceSplits.Keys + destSplits.Keys
      ensures OverlapsOn(dim, sourceSplits, destSplits, source, dest) <==>
              OverlapsOn(dim, destSplits, sourceSplits, dest, source)
    {
    }
    assert sourceSplits.Keys + destSplits.Keys == destSplits.Keys + sourceSplits.Keys;
  }

  // --- Edges and certificates ---

  /** The two partitions cut the same shape, from the same corner. */
  ghost predicate WholeParent(g: Geometry, parent: seq<nat>) {
    Cut(g.src, parent) && Cut(g.dst, parent) && |g.origin| == |parent| && forall i :: 0 <= i < |parent| ==> g.origin[i] == 0
  }

  lemma MeetsOverlaps(g: Geometry, parent: seq<nat>, s: int, d: int)
    requires Placed(g) && WholeParent(g, parent) && 0 <= s < |g.src.rows| && 0 <= d < |g.dst.rows|
    ensures MeetsAt(g, s, d) <==> forall i :: 0 <= i < |parent| ==>
              Overlap(g.src.rows[s][i], g.src.splits[i], g.dst.rows[d][i], g.dst.splits[i])
  {
    ScaleAt(g.src.rows[s], g.src.shape);
    ScaleAt(g.dst.rows[d], g.dst.shape);
    forall i | 0 <= i < |parent|
      ensures IntervalsOverlap(SrcStart(g, s)[i], SrcStart(g, s)[i] + g.src.shape[i],
                               DstStart(g, d)[i], DstStart(g, d)[i] + g.dst.shape[i])
              <==> Overlap(g.src.rows[s][i], g.src.splits[i], g.dst.rows[d][i], g.dst.splits[i])
    {
      AxisMeets(g.src.rows[s][i], g.src.splits[i], g.src.shape[i], g.dst.rows[d][i], g.dst.splits[i], g.dst.shape[i]);
    }
  }

  /** Dimensions neither side splits never separate two cores. */
  lemma EdgeAllAxes(rank: nat, sourceSplits: map<int, int>, destSplits: map<int, int>, source: map<int, int>,
                    dest: map<int, int>)
    requires AxesInside(sourceSplits, rank) && AxesInside(destSplits, rank)
    requires forall i :: 0 <= i < rank ==>
               0 <= Get(source, i, 0) < Get(sourceSplits, i, 1) && 0 <= Get(dest, i, 0) < Get(destSplits, i, 1)
    ensures Edge(sourceSplits, destSplits, source, dest) <==>
            forall i :: 0 <= i < rank ==> OverlapsOn(i, sourceSplits, destSplits, source, dest)
  {
    if Edge(sourceSplits, destSplits, source, dest) {
      forall i | 0 <= i < rank ensures OverlapsOn(i, sourceSplits, destSplits, source, dest) {
        if i in sourceSplits || i in destSplits {
          assert i in sourceSplits.Keys + destSplits.Keys;
        } else {
          Unsplit(Get(source, i, 0), Get(dest, i, 0));
        }
      }
    }
    if forall i :: 0 <= i < rank ==> OverlapsOn(i, sourceSplits, destSplits, source, dest) {
      forall dim | dim in sourceSplits.Keys + destSplits.Keys
        ensures OverlapsOn(dim, sourceSplits, destSplits, source, dest)
      {
        assert 0 <= dim < rank;
      }
    }
  }

  /** The partition's rows and splits are what the maps say. */
  lemma PartitionReads(shape: seq<nat>, splits: map<int, int>, owners: Owners, replicas: bool, c: int)
    requires 0 < |shape| && ValidPartition(shape, splits, owners, replicas) && c in owners
    ensures var p := PartitionOf(shape, splits, owners);
            && 0 <= c < |p.rows| && |p.rows[c]| == |p.splits| == |shape|
            && forall i :: 0 <= i < |shape| ==>
                 p.splits[i] == Get(splits, i, 1) && 0 <= p.rows[c][i] == Get(owners[c], i, 0) < p.splits[i]
  {
    assert c in Range(|owners|);
    assert ValidRow(owners[c], GetAll(splits, |shape|, 1));
  }

  lemma MeetsIffEdge(parent: seq<nat>, g: Geometry, sourceSplits: map<int, int>, destSplits: map<int, int>,
                     source: map<int, int>, dest: map<int, int>, s: int, d: int)
    requires Placed(g) && WholeParent(g, parent) && 0 <= s < |g.src.rows| && 0 <= d < |g.dst.rows|
    requires AxesInside(sourceSplits, |parent|) && AxesInside(destSplits, |parent|)
    requires forall i :: 0 <= i < |parent| ==>
               && g.src.splits[i] == Get(sourceSplits, i, 1) && 0 <= g.src.rows[s][i] == Get(source, i, 0) < g.src.splits[i]
               && g.dst.splits[i] == Get(destSplits, i, 1) && 0 <= g.dst.rows[d][i] == Get(dest, i, 0) < g.dst.splits[i]
    ensures MeetsAt(g, s, d) <==> Edge(sourceSplits, destSplits, source, dest)
  {
    MeetsOverlaps(g, parent, s, d);
    EdgeAllAxes(|parent|, sourceSplits, destSplits, source, dest);
    assert forall i :: 0 <= i < |parent| ==>
      (OverlapsOn(i, sourceSplits, destSplits, source, dest) <==>
       Overlap(g.src.rows[s][i], g.src.splits[i], g.dst.rows[d][i], g.dst.splits[i]));
  }

  lemma SourceEdge(parent: seq<nat>, origin: seq<int>, sourceSplits: map<int, int>, destSplits: map<int, int>,
                   sourceMap: Owners, destMap: Owners, bytes: int, s: int, d: int)
    requires ValidInputs(parent, origin, parent, sourceSplits, destSplits, sourceMap, destMap, bytes)
    requires forall i :: 0 <= i < |parent| ==> origin[i] == 0
    requires s in sourceMap && d in destMap
    ensures var g := GeometryOf(parent, origin, parent, sourceSplits, destSplits, sourceMap, destMap, bytes);
            && Placed(g) && 0 <= s < |g.src.rows| && 0 <= d < |g.dst.rows|
            && (MeetsAt(g, s, d) <==> Edge(sourceSplits, destSplits, sourceMap[s], destMap[d]))
  {
    var g := GeometryOf(parent, origin, parent, sourceSplits, destSplits, sourceMap, destMap, bytes);
    InputsSound(parent, origin, parent, sourceSplits, destSplits, sourceMap, destMap, bytes);
    SoundPlaced(g, parent, parent);
    PartitionReads(parent, sourceSplits, sourceMap, false, s);
    PartitionReads(parent, destSplits, destMap, true, d);
    MeetsIffEdge(parent, g, sourceSplits, destSplits, sourceMap[s], destMap[d], s, d);
  }

  /** Some fragment goes from source core s to destination core d. */
  ghost predicate Connects(fragments: seq<Fragment>, s: int, d: int) {
    exists f :: f in fragments && f.source == s && f.dest == d
  }

  lemma PairMeets(cert: Certificate, s: int, d: int)
    requires Certified(cert)
    ensures Connects(cert.fragments, s, d) <==>
            0 <= s < |cert.at.src.rows| && 0 <= d < |cert.at.dst.rows| && MeetsAt(cert.at, s, d)
  {
    var g := cert.at;
    AllFragmentsAre(g, |g.dst.rows|);
    if 0 <= s < |g.src.rows| && 0 <= d < |g.dst.rows| && MeetsAt(g, s, d) {
      FragmentBetween(g, s, d);
      assert FragmentOf(g, s, d) in cert.fragments;
    }
  }

  lemma CoresListed(shape: seq<nat>, splits: map<int, int>, owners: Owners, replicas: bool, c: int)
    requires 0 < |shape| && ValidPartition(shape, splits, owners, replicas)
    ensures c in owners <==> 0 <= c < |PartitionOf(shape, splits, owners).rows|
  {
    assert c in owners.Keys <==> c in Range(|owners|);
  }

  /** With the whole parent as child, the certificate's fragments connect exactly the
      core pairs that are edges. */
  lemma FragmentsAreEdges(parent: seq<nat>, origin: seq<int>, sourceSplits: map<int, int>, destSplits: map<int, int>,
                          sourceMap: Owners, destMap: Owners, bytes: int, cert: Certificate, s: int, d: int)
    requires ValidInputs(parent, origin, parent, sourceSplits, destSplits, sourceMap, destMap, bytes)
    requires forall i :: 0 <= i < |parent| ==> origin[i] == 0
    requires Certified(cert)
    requires cert.at == GeometryOf(parent, origin, parent, sourceSplits, destSplits, sourceMap, destMap, bytes)
    ensures Connects(cert.fragments, s, d) <==>
            s in sourceMap && d in destMap && Edge(sourceSplits, destSplits, sourceMap[s], destMap[d])
  {
    PairMeets(cert, s, d);
    CoresListed(parent, sourceSplits, sourceMap, false, s);
    CoresListed(parent, destSplits, destMap, true, d);
    if s in sourceMap && d in destMap {
      SourceEdge(parent, origin, sourceSplits, destSplits, sourceMap, destMap, bytes, s, d);
    }
  }
}
