/** Certified transfers of a dense rectangular child of a partitioned parent
    (`certify_dense_subrange_transfer` of `torch_spyre/_inductor/core_mapping.py`). */
module Transfer {
  import opened Arith
  import opened Radix
  import opened DenseLayout
  import opened DensePartition

  const STICK_BYTES := 128
  const MAX_SHUFFLE_FANIN := 8

  /** One rectangle copied from a source core to a destination core. */
  datatype Fragment = Fragment(source: int, dest: int, start: seq<int>, extent: seq<nat>, srcOffset: int, dstOffset: int,
                               srcStrides: seq<int>, dstStrides: seq<int>)

  /** Where the child starts in its parent, and how both are cut. */
  datatype Geometry = Geometry(origin: seq<int>, bytes: nat, src: Partition, dst: Partition)

  datatype Certificate = Certificate(parent: seq<nat>, extent: seq<nat>, at: Geometry, srcSpan: nat, dstSpan: nat,
                                     fragments: seq<Fragment>)

  /** The lower corner of the slice a slot tuple names. */
  function Scale(slots: seq<int>, shape: seq<nat>): (s: seq<int>)
    requires |slots| == |shape|
    ensures |s| == |slots|
    decreases shape
  {
    if shape == [] then [] else [slots[0] * shape[0]] + Scale(slots[1..], shape[1..])
  }

  lemma {:induction false} ScaleAt(slots: seq<int>, shape: seq<nat>)
    requires |slots| == |shape|
    ensures forall i :: 0 <= i < |slots| ==> Scale(slots, shape)[i] == slots[i] * shape[i]
    decreases shape
  {
    if shape != [] {
      ScaleAt(slots[1..], shape[1..]);
      forall i | 0 <= i < |slots| ensures Scale(slots, shape)[i] == slots[i] * shape[i] {
        if i > 0 {
          assert Scale(slots, shape)[i] == Scale(slots[1..], shape[1..])[i - 1];
        }
      }
    }
  }

  /** All parts have one rank and no slice is empty. */
  predicate Placed(g: Geometry) {
    && |g.origin| == |g.src.shape| == |g.dst.shape|
    && AllPositive(g.src.shape) && AllPositive(g.dst.shape)
    && (forall s :: 0 <= s < |g.src.rows| ==> |g.src.rows[s]| == |g.origin|)
    && (forall d :: 0 <= d < |g.dst.rows| ==> |g.dst.rows[d]| == |g.origin|)
  }

  function SrcStart(g: Geometry, s: int): (start: seq<int>)
    requires Placed(g) && 0 <= s < |g.src.rows|
    ensures |start| == |g.origin|
  {
    Scale(g.src.rows[s], g.src.shape)
  }

  function DstStart(g: Geometry, d: int): (start: seq<int>)
    requires Placed(g) && 0 <= d < |g.dst.rows|
    ensures |start| == |g.origin|
  {
    Plus(g.origin, Scale(g.dst.rows[d], g.dst.shape))
  }

  predicate MeetsAt(g: Geometry, s: int, d: int)
    requires Placed(g) && 0 <= s < |g.src.rows| && 0 <= d < |g.dst.rows|
  {
    Meets(SrcStart(g, s), g.src.shape, DstStart(g, d), g.dst.shape)
  }

  function FragmentOf(g: Geometry, s: int, d: int): Fragment
    requires Placed(g) && 0 <= s < |g.src.rows| && 0 <= d < |g.dst.rows| && MeetsAt(g, s, d)
  {
    var a, b := SrcStart(g, s), DstStart(g, d);
    var start := ClipStart(a, b);
    var ss, ds := Strides(g.src.shape, g.bytes), Strides(g.dst.shape, g.bytes);
    Fragment(s, d, start, ClipWidths(a, g.src.shape, b, g.dst.shape),
             Dot(Minus(start, a), ss), Dot(Minus(start, b), ds), ss, ds)
  }

  /** The fragment from source s into destination d, if there is one. */
  function Piece(g: Geometry, s: int, d: int): seq<Fragment>
    requires Placed(g) && 0 <= s < |g.src.rows| && 0 <= d < |g.dst.rows|
  {
    if MeetsAt(g, s, d) then [FragmentOf(g, s, d)] else []
  }

  /** The fragments into destination d from the first n sources. */
  function Incoming(g: Geometry, d: int, n: nat): seq<Fragment>
    requires Placed(g) && 0 <= d < |g.dst.rows| && n <= |g.src.rows|
  {
    if n == 0 then [] else Incoming(g, d, n - 1) + Piece(g, n - 1, d)
  }

  function AllFragments(g: Geometry, m: nat): seq<Fragment>
    requires Placed(g) && m <= |g.dst.rows|
  {
    if m == 0 then [] else AllFragments(g, m - 1) + Incoming(g, m - 1, |g.src.rows|)
  }

  // --- What a certificate guarantees ---

  /** Step p of the fragment writes local point l of destination d. */
  ghost predicate Lands(g: Geometry, f: Fragment, p: seq<int>, d: int, l: seq<int>)
    requires |l| == |g.dst.shape|
  {
    && f.dest == d && Below(p, f.extent) && |f.extent| == |f.dstStrides|
    && f.dstOffset + Dot(p, f.dstStrides) == Dot(l, Strides(g.dst.shape, g.bytes))
  }

  /** Step p of the fragment reads parent point y from the core that owns it. */
  ghost predicate Reads(g: Geometry, f: Fragment, p: seq<int>, y: seq<int>)
    requires Placed(g)
  {
    && 0 <= f.source < |g.src.rows| && InSlice(y, SrcStart(g, f.source), g.src.shape)
    && |p| == |f.srcStrides|
    && f.srcOffset + Dot(p, f.srcStrides) == Dot(Minus(y, SrcStart(g, f.source)), Strides(g.src.shape, g.bytes))
  }

  /** Exactly one fragment step writes local point l of destination d, and it reads
      the parent point that belongs there. */
  ghost predicate WrittenOnce(g: Geometry, fragments: seq<Fragment>, d: int, l: seq<int>)
    requires Placed(g) && 0 <= d < |g.dst.rows| && |l| == |g.dst.shape|
  {
    exists f, p ::
      && f in fragments && Lands(g, f, p, d, l) && Reads(g, f, p, Plus(DstStart(g, d), l))
      && forall f', p' :: f' in fragments && Lands(g, f', p', d, l) ==> f' == f && p' == p
  }

  /** No step writes outside the destination's slice. */
  ghost predicate StaysIn(g: Geometry, f: Fragment)
    requires Placed(g)
  {
    && 0 <= f.dest < |g.dst.rows|
    && forall p :: Below(p, f.extent) ==> exists l :: Below(l, g.dst.shape) && Lands(g, f, p, f.dest, l)
  }

  ghost predicate CopiesExactly(g: Geometry, fragments: seq<Fragment>)
    requires Placed(g)
  {
    && Distinct(fragments)
    && (forall f :: f in fragments ==> StaysIn(g, f))
    && forall d, l :: 0 <= d < |g.dst.rows| && Below(l, g.dst.shape) ==> WrittenOnce(g, fragments, d, l)
  }

  // --- Valid geometry ---

  /** The partition cuts the shape into equal slices, sticks whole. */
  ghost predicate Cut(p: Partition, shape: seq<nat>) {
    && |p.splits| == |p.shape| == |shape| > 0 && AllPositive(p.splits) && AllPositive(p.shape)
    && (forall i :: 0 <= i < |shape| ==> p.splits[i] * p.shape[i] == shape[i])
    && p.splits[|shape| - 1] == 1
    && 0 < |p.rows| && forall c :: 0 <= c < |p.rows| ==> Below(p.rows[c], p.splits)
  }

  ghost predicate OneHolder(p: Partition) {
    forall t :: Below(t, p.splits) ==> |Holders(p.rows, t)| == 1
  }

  predicate ValidSubrange(parent: seq<int>, origin: seq<int>, extent: seq<int>, bytes: int) {
    && 2 <= |parent| == |origin| == |extent| && bytes in {1, 2, 4}
    && (forall i :: 0 <= i < |parent| ==> 0 < parent[i] && 0 <= origin[i] && 0 < extent[i] && origin[i] + extent[i] <= parent[i])
    && parent[|parent| - 1] * bytes == STICK_BYTES
    && origin[|parent| - 1] == 0 && extent[|parent| - 1] == parent[|parent| - 1]
  }

  ghost predicate Sound(g: Geometry, parent: seq<nat>, extent: seq<nat>) {
    && ValidSubrange(parent, g.origin, extent, g.bytes)
    && Cut(g.src, parent) && OneHolder(g.src) && Cut(g.dst, extent)
  }

  lemma SoundPlaced(g: Geometry, parent: seq<nat>, extent: seq<nat>)
    requires Sound(g, parent, extent)
    ensures Placed(g)
  {
  }

  /** Slot tuples name the slices: a point lies in the slice of its quotients. */
  lemma SliceSlots(y: seq<int>, slots: seq<int>, shape: seq<nat>)
    requires |y| == |slots| == |shape| && AllPositive(shape)
    ensures InSlice(y, Scale(slots, shape), shape) <==> forall i :: 0 <= i < |y| ==> y[i] / shape[i] == slots[i]
  {
    ScaleAt(slots, shape);
    forall i | 0 <= i < |y|
      ensures Scale(slots, shape)[i] <= y[i] < Scale(slots, shape)[i] + shape[i] <==> y[i] / shape[i] == slots[i]
    {
      QuotientInterval(y[i], shape[i], slots[i]);
    }
  }

  lemma QuotientInterval(x: int, d: int, q: int)
    requires 0 < d
    ensures q * d <= x < q * d + d <==> x / d == q
  {
    if q * d <= x < q * d + d {
      DivModUnique(x, d, q, x - q * d);
    } else {
      DivModEq(x, d);
    }
  }

  /** Every parent point belongs to one source core. */
  lemma SourceOwner(p: Partition, parent: seq<nat>, y: seq<int>) returns (s: int)
    requires Cut(p, parent) && OneHolder(p) && Below(y, parent)
    ensures 0 <= s < |p.rows| && InSlice(y, Scale(p.rows[s], p.shape), p.shape)
    ensures forall s' :: 0 <= s' < |p.rows| && InSlice(y, Scale(p.rows[s'], p.shape), p.shape) ==> s' == s
  {
    var t := seq(|y|, i requires 0 <= i < |y| => y[i] / p.shape[i]);
    forall i | 0 <= i < |y| ensures 0 <= t[i] < p.splits[i] {
      DivBounds(y[i], p.shape[i], 0, p.splits[i]);
    }
    s := SoleHolder(p.rows, t);
    forall s' | 0 <= s' < |p.rows| ensures InSlice(y, Scale(p.rows[s'], p.shape), p.shape) <==> s' == s {
      SliceSlots(y, p.rows[s'], p.shape);
      assert p.rows[s'] == t <==> forall i :: 0 <= i < |y| ==> y[i] / p.shape[i] == p.rows[s'][i];
    }
  }

  lemma SoleHolder(rows: seq<seq<int>>, t: seq<int>) returns (s: int)
    requires |Holders(rows, t)| == 1
    ensures 0 <= s < |rows|
    ensures forall s' :: 0 <= s' < |rows| ==> (rows[s'] == t <==> s' == s)
  {
    var held := Holders(rows, t);
    SingleElement(held);
    s :| held == {s};
    forall s' | 0 <= s' < |rows| ensures rows[s'] == t <==> s' == s {
      assert s' in held <==> rows[s'] == t;
    }
  }

  /** A destination's slice lies inside the parent. */
  lemma DestInParent(g: Geometry, parent: seq<nat>, extent: seq<nat>, d: int, y: seq<int>)
    requires Sound(g, parent, extent) && Placed(g) && 0 <= d < |g.dst.rows| && InSlice(y, DstStart(g, d), g.dst.shape)
    ensures Below(y, parent)
  {
    ScaleAt(g.dst.rows[d], g.dst.shape);
    forall i | 0 <= i < |y| ensures 0 <= y[i] < parent[i] {
      SlotInside(g.dst.rows[d][i], g.dst.splits[i], g.dst.shape[i]);
    }
  }

  lemma SlotInside(slot: int, split: int, size: int)
    requires 0 <= slot < split && 0 < size
    ensures 0 <= slot * size && slot * size + size <= split * size
  {
    MulMono(0, slot, size);
    MulMono(slot + 1, split, size);
    assert (slot + 1) * size == slot * size + size;
  }

  // --- Every element once ---

  lemma Telescopes(start: seq<int>, base: seq<int>, y: seq<int>, w: seq<int>)
    requires |start| == |base| == |y| == |w|
    ensures Dot(Minus(start, base), w) + Dot(Minus(y, start), w) == Dot(Minus(y, base), w)
  {
    DotPlus(Minus(start, base), Minus(y, start), w);
    assert Plus(Minus(start, base), Minus(y, start)) == Minus(y, base);
  }

  /** Points both slices share are the steps of the fragment between them. */
  lemma SharedStep(g: Geometry, s: int, d: int, y: seq<int>)
    requires Placed(g) && 0 <= s < |g.src.rows| && 0 <= d < |g.dst.rows|
    requires InSlice(y, SrcStart(g, s), g.src.shape) && InSlice(y, DstStart(g, d), g.dst.shape)
    ensures MeetsAt(g, s, d)
    ensures var f, l := FragmentOf(g, s, d), Minus(y, DstStart(g, d));
            && |f.start| == |y| && Below(l, g.dst.shape)
            && Lands(g, f, Minus(y, f.start), d, l) && Reads(g, f, Minus(y, f.start), y)
  {
    var a, b := SrcStart(g, s), DstStart(g, d);
    MeetsShares(a, g.src.shape, b, g.dst.shape);
    var f := FragmentOf(g, s, d);
    assert InSlice(y, f.start, f.extent);
    Telescopes(f.start, a, y, f.srcStrides);
    Telescopes(f.start, b, y, f.dstStrides);
  }

  /** Every step of a fragment is at a point both slices share. */
  lemma StepShared(g: Geometry, s: int, d: int, p: seq<int>)
    requires Placed(g) && 0 <= s < |g.src.rows| && 0 <= d < |g.dst.rows| && MeetsAt(g, s, d)
    requires Below(p, FragmentOf(g, s, d).extent)
    ensures var f := FragmentOf(g, s, d);
            && |p| == |f.start| && InSlice(Plus(f.start, p), SrcStart(g, s), g.src.shape)
            && InSlice(Plus(f.start, p), DstStart(g, d), g.dst.shape)
            && Minus(Plus(f.start, p), f.start) == p
  {
    var a, b := SrcStart(g, s), DstStart(g, d);
    MeetsShares(a, g.src.shape, b, g.dst.shape);
    var f := FragmentOf(g, s, d);
    assert InSlice(Plus(f.start, p), f.start, f.extent);
    PlusMinus(f.start, p);
  }

  ghost predicate Between(g: Geometry, f: Fragment)
    requires Placed(g)
  {
    && 0 <= f.source < |g.src.rows| && 0 <= f.dest < |g.dst.rows| && MeetsAt(g, f.source, f.dest)
    && f == FragmentOf(g, f.source, f.dest)
  }

  lemma FragmentBetween(g: Geometry, s: int, d: int)
    requires Placed(g) && 0 <= s < |g.src.rows| && 0 <= d < |g.dst.rows| && MeetsAt(g, s, d)
    ensures var f := FragmentOf(g, s, d);
            Between(g, f) && f.source == s && f.dest == d
  {
  }

  lemma {:induction false} IncomingBetween(g: Geometry, d: int, n: nat, f: Fragment)
    requires Placed(g) && 0 <= d < |g.dst.rows| && n <= |g.src.rows| && f in Incoming(g, d, n)
    ensures Between(g, f) && f.dest == d && f.source < n
    decreases n
  {
    if f in Incoming(g, d, n - 1) {
      IncomingBetween(g, d, n - 1, f);
    } else {
      FragmentBetween(g, n - 1, d);
    }
  }

  lemma {:induction false} IncomingDistinct(g: Geometry, d: int, n: nat)
    requires Placed(g) && 0 <= d < |g.dst.rows| && n <= |g.src.rows|
    ensures Distinct(Incoming(g, d, n))
    decreases n
  {
    if n > 0 {
      IncomingDistinct(g, d, n - 1);
      PieceNew(g, d, n - 1);
      DisjointDistinct(Incoming(g, d, n - 1), Piece(g, n - 1, d));
    }
  }

  lemma PieceNew(g: Geometry, d: int, n: nat)
    requires Placed(g) && 0 <= d < |g.dst.rows| && n < |g.src.rows|
    ensures Distinct(Piece(g, n, d)) && forall f :: f in Incoming(g, d, n) ==> f !in Piece(g, n, d)
  {
    forall f | f in Incoming(g, d, n) ensures f !in Piece(g, n, d) {
      IncomingBetween(g, d, n, f);
    }
  }

  lemma {:induction false} IncomingHas(g: Geometry, d: int, n: nat, s: nat)
    requires Placed(g) && 0 <= d < |g.dst.rows| && s < n <= |g.src.rows| && MeetsAt(g, s, d)
    ensures FragmentOf(g, s, d) in Incoming(g, d, n)
    decreases n
  {
    if s < n - 1 {
      IncomingHas(g, d, n - 1, s);
    }
  }

  lemma DisjointDistinct<T>(s: seq<T>, t: seq<T>)
    requires Distinct(s) && Distinct(t) && forall x :: x in s ==> x !in t
    ensures Distinct(s + t)
  {
    forall i, j | 0 <= i < |s| && 0 <= j < |t| ensures s[i] != t[j] {
      assert s[i] in s;
    }
  }

  lemma LastFragments(g: Geometry, m: nat, f: Fragment)
    requires Placed(g) && m <= |g.dst.rows| && f in AllFragments(g, m)
    ensures 0 < m && (f in AllFragments(g, m - 1) || f in Incoming(g, m - 1, |g.src.rows|))
  {
  }

  lemma {:induction false} FragmentsBetween(g: Geometry, m: nat, f: Fragment)
    requires Placed(g) && m <= |g.dst.rows| && f in AllFragments(g, m)
    ensures Between(g, f) && f.dest < m
    decreases m
  {
    LastFragments(g, m, f);
    if f in AllFragments(g, m - 1) {
      FragmentsBetween(g, m - 1, f);
    } else {
      IncomingBetween(g, m - 1, |g.src.rows|, f);
    }
  }

  lemma {:induction false} FragmentsHave(g: Geometry, m: nat, s: nat, d: nat)
    requires Placed(g) && d < m <= |g.dst.rows| && s < |g.src.rows| && MeetsAt(g, s, d)
    ensures FragmentOf(g, s, d) in AllFragments(g, m)
    decreases m
  {
    if d < m - 1 {
      FragmentsHave(g, m - 1, s, d);
    } else {
      IncomingHas(g, d, |g.src.rows|, s);
    }
  }

  lemma FragmentsApart(g: Geometry, d: nat, f: Fragment)
    requires Placed(g) && d < |g.dst.rows| && f in AllFragments(g, d)
    ensures f !in Incoming(g, d, |g.src.rows|)
  {
    FragmentsBetween(g, d, f);
    if f in Incoming(g, d, |g.src.rows|) {
      IncomingBetween(g, d, |g.src.rows|, f);
    }
  }

  lemma DistinctNext(g: Geometry, d: nat)
    requires Placed(g) && d < |g.dst.rows| && Distinct(AllFragments(g, d))
    ensures Distinct(AllFragments(g, d + 1))
  {
    var before, last := AllFragments(g, d), Incoming(g, d, |g.src.rows|);
    assert AllFragments(g, d + 1) == before + last;
    IncomingDistinct(g, d, |g.src.rows|);
    forall f | f in before ensures f !in last {
      FragmentsApart(g, d, f);
    }
    DisjointDistinct(before, last);
  }

  lemma {:induction false} FragmentsDistinct(g: Geometry, m: nat)
    requires Placed(g) && m <= |g.dst.rows|
    ensures Distinct(AllFragments(g, m))
    decreases m
  {
    if m == 0 {
      assert AllFragments(g, m) == [];
    } else {
      FragmentsDistinct(g, m - 1);
      DistinctNext(g, m - 1);
    }
  }

  lemma AllFragmentsAre(g: Geometry, m: nat)
    requires Placed(g) && m <= |g.dst.rows|
    ensures Distinct(AllFragments(g, m))
    ensures forall f :: f in AllFragments(g, m) <==> Between(g, f) && f.dest < m
  {
    FragmentsDistinct(g, m);
    forall f ensures f in AllFragments(g, m) <==> Between(g, f) && f.dest < m {
      if f in AllFragments(g, m) {
        FragmentsBetween(g, m, f);
      } else if Between(g, f) && f.dest < m {
        FragmentsHave(g, m, f.source, f.dest);
      }
    }
  }

  /** Equal byte addresses in a slice are equal points. */
  lemma AddressInjective(l: seq<int>, l': seq<int>, shape: seq<nat>, bytes: nat)
    requires Below(l, shape) && Below(l', shape) && 0 < bytes
    requires Dot(l, Strides(shape, bytes)) == Dot(l', Strides(shape, bytes))
    ensures l == l'
  {
    DotIsDense(l, shape, bytes);
    DotIsDense(l', shape, bytes);
    SameFactor(Dense(l, shape), Dense(l', shape), bytes);
    DenseInjective(l, l', shape);
  }

  lemma SameFactor(x: int, y: int, d: int)
    requires 0 < d && x * d == y * d
    ensures x == y
  {
    if x < y {
      MulMono(x + 1, y, d);
    } else if y < x {
      MulMono(y + 1, x, d);
    }
  }

  /** Two steps that write the same point are the same step. */
  lemma SameStep(g: Geometry, parent: seq<nat>, extent: seq<nat>, f: Fragment, p: seq<int>, d: int, l: seq<int>, s: int)
    requires Sound(g, parent, extent) && Placed(g) && 0 <= d < |g.dst.rows| && Below(l, g.dst.shape)
    requires Between(g, f) && Lands(g, f, p, d, l)
    requires 0 <= s < |g.src.rows|
    requires forall s' :: 0 <= s' < |g.src.rows| && InSlice(Plus(DstStart(g, d), l), SrcStart(g, s'), g.src.shape) ==> s' == s
    ensures f.source == s && |f.start| == |l| && p == Minus(Plus(DstStart(g, d), l), f.start)
  {
    StepShared(g, f.source, d, p);
    var y := Plus(f.start, p);
    SharedStep(g, f.source, d, y);
    AddressInjective(l, Minus(y, DstStart(g, d)), g.dst.shape, g.bytes);
    PlusMinus(DstStart(g, d), y);
    PlusMinus(f.start, p);
  }

  /** The fragment step that writes a point. */
  lemma Writer(g: Geometry, parent: seq<nat>, extent: seq<nat>, d: int, l: seq<int>) returns (s: int)
    requires Sound(g, parent, extent) && Placed(g) && 0 <= d < |g.dst.rows| && Below(l, g.dst.shape)
    ensures 0 <= s < |g.src.rows| && MeetsAt(g, s, d)
    ensures var f, y := FragmentOf(g, s, d), Plus(DstStart(g, d), l);
            |f.start| == |y| && Lands(g, f, Minus(y, f.start), d, l) && Reads(g, f, Minus(y, f.start), y)
    ensures forall s' :: 0 <= s' < |g.src.rows| && InSlice(Plus(DstStart(g, d), l), SrcStart(g, s'), g.src.shape) ==> s' == s
  {
    var y := Plus(DstStart(g, d), l);
    assert InSlice(y, DstStart(g, d), g.dst.shape);
    DestInParent(g, parent, extent, d, y);
    s := SourceOwner(g.src, parent, y);
    SharedStep(g, s, d, y);
    PlusMinus(DstStart(g, d), l);
  }

  lemma PointWrittenOnce(g: Geometry, parent: seq<nat>, extent: seq<nat>, fragments: seq<Fragment>, d: int, l: seq<int>)
    requires Sound(g, parent, extent) && Placed(g) && 0 <= d < |g.dst.rows| && Below(l, g.dst.shape)
    requires forall f :: f in fragments <==> Between(g, f)
    ensures WrittenOnce(g, fragments, d, l)
  {
    var s := Writer(g, parent, extent, d, l);
    FragmentBetween(g, s, d);
    var f, y := FragmentOf(g, s, d), Plus(DstStart(g, d), l);
    var p := Minus(y, f.start);
    forall f', p' | f' in fragments && Lands(g, f', p', d, l) ensures f' == f && p' == p {
      SameStep(g, parent, extent, f', p', d, l, s);
    }
    assert f in fragments && Lands(g, f, p, d, l) && Reads(g, f, p, y);
  }

  lemma FragmentStays(g: Geometry, f: Fragment)
    requires Placed(g) && Between(g, f)
    ensures StaysIn(g, f)
  {
    forall p | Below(p, f.extent) ensures exists l :: Below(l, g.dst.shape) && Lands(g, f, p, f.dest, l) {
      StepShared(g, f.source, f.dest, p);
      SharedStep(g, f.source, f.dest, Plus(f.start, p));
      assert Lands(g, f, p, f.dest, Minus(Plus(f.start, p), DstStart(g, f.dest)));
    }
  }

  lemma TransferCopiesExactly(g: Geometry, parent: seq<nat>, extent: seq<nat>)
    requires Sound(g, parent, extent) && Placed(g)
    ensures CopiesExactly(g, AllFragments(g, |g.dst.rows|))
  {
    var fragments := AllFragments(g, |g.dst.rows|);
    AllFragmentsAre(g, |g.dst.rows|);
    forall f | f in fragments ensures StaysIn(g, f) {
      FragmentStays(g, f);
    }
    forall d, l | 0 <= d < |g.dst.rows| && Below(l, g.dst.shape) ensures WrittenOnce(g, fragments, d, l) {
      PointWrittenOnce(g, parent, extent, fragments, d, l);
    }
  }
}
