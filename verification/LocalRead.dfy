/** When a certified child can be read in place from each core's own parent slice
    (`local_subrange_byte_offset` of `torch_spyre/_inductor/core_mapping.py`). */
module LocalRead {
  import opened Arith
  import opened Radix
  import opened Wrappers
  import opened DenseLayout
  import opened Transfer
  import opened Certify

  /** On core c every element of the child slice lies in that core's own parent slice,
      at the common offset plus its dense child address. */
  ghost predicate LocalAt(g: Geometry, c: int, offset: int)
    requires Placed(g) && 0 <= c < |g.src.rows| && c < |g.dst.rows|
  {
    forall l :: Below(l, g.dst.shape) ==> LocalPoint(g, c, offset, l)
  }

  ghost predicate LocalPoint(g: Geometry, c: int, offset: int, l: seq<int>)
    requires Placed(g) && 0 <= c < |g.src.rows| && c < |g.dst.rows| && |l| == |g.dst.shape|
  {
    var y := Plus(DstStart(g, c), l);
    && InSlice(y, SrcStart(g, c), g.src.shape)
    && Dot(Minus(y, SrcStart(g, c)), Strides(g.src.shape, g.bytes)) == offset + Dot(l, Strides(g.dst.shape, g.bytes))
  }

  ghost predicate ReadsLocally(g: Geometry, offset: int)
    requires Placed(g)
  {
    |g.src.rows| == |g.dst.rows| && forall c :: 0 <= c < |g.src.rows| ==> LocalAt(g, c, offset)
  }

  /** The strides agree on every axis that is really walked. */
  predicate SameWalk(shape: seq<nat>, a: seq<int>, b: seq<int>)
    requires |shape| == |a| == |b|
  {
    forall i :: 0 <= i < |shape| && shape[i] > 1 ==> a[i] == b[i]
  }

  /** The fragment is a compact read of core c's own slice. */
  predicate Compact(shape: seq<nat>, f: Fragment, c: int) {
    && f.source == c && f.dest == c && f.dstOffset == 0 && f.extent == shape
    && |f.srcStrides| == |f.dstStrides| == |shape| && SameWalk(shape, f.srcStrides, f.dstStrides)
  }

  ghost predicate AllCompact(cert: Certificate, offset: int) {
    && |cert.at.src.rows| == |cert.at.dst.rows| == |cert.fragments|
    && forall c :: 0 <= c < |cert.fragments| ==>
         Compact(cert.at.dst.shape, cert.fragments[c], c) && cert.fragments[c].srcOffset == offset
  }

  // --- Compact fragments read locally ---

  lemma {:induction false} SameWalkDot(l: seq<int>, shape: seq<nat>, a: seq<int>, b: seq<int>)
    requires Below(l, shape) && |a| == |b| == |shape| && SameWalk(shape, a, b)
    ensures Dot(l, a) == Dot(l, b)
    decreases shape
  {
    if shape != [] {
      assert SameWalk(shape[1..], a[1..], b[1..]);
      SameWalkDot(l[1..], shape[1..], a[1..], b[1..]);
      assert l[0] * a[0] == l[0] * b[0];
    }
  }

  /** A fragment as large as the child slice is the whole slice. */
  lemma WholeSlice(a: seq<int>, aShape: seq<nat>, b: seq<int>, bShape: seq<nat>)
    requires |a| == |aShape| == |b| == |bShape| && AllPositive(aShape) && AllPositive(bShape)
    requires Meets(a, aShape, b, bShape)
    ensures ClipWidths(a, aShape, b, bShape) == bShape <==>
            forall i :: 0 <= i < |a| ==> a[i] <= b[i] && b[i] + bShape[i] <= a[i] + aShape[i]
    ensures ClipWidths(a, aShape, b, bShape) == bShape ==> ClipStart(a, b) == b
  {
    var w := ClipWidths(a, aShape, b, bShape);
    if w == bShape {
      assert forall i :: 0 <= i < |a| ==> w[i] == bShape[i];
    }
  }

  lemma CompactReads(g: Geometry, c: int)
    requires Placed(g) && 0 <= c < |g.src.rows| && c < |g.dst.rows| && MeetsAt(g, c, c)
    requires Compact(g.dst.shape, FragmentOf(g, c, c), c)
    ensures LocalAt(g, c, FragmentOf(g, c, c).srcOffset)
  {
    var a, b, f := SrcStart(g, c), DstStart(g, c), FragmentOf(g, c, c);
    WholeSlice(a, g.src.shape, b, g.dst.shape);
    forall l | Below(l, g.dst.shape) ensures LocalPoint(g, c, f.srcOffset, l) {
      Telescopes(b, a, Plus(b, l), f.srcStrides);
      PlusMinus(b, l);
      SameWalkDot(l, g.dst.shape, f.srcStrides, f.dstStrides);
    }
  }

  // --- Local reads are compact ---

  function Zeros(n: nat): (z: seq<int>)
    ensures |z| == n && forall i :: 0 <= i < n ==> z[i] == 0
  {
    seq(n, i => 0)
  }

  lemma {:induction false} ZeroDot(q: seq<int>, w: seq<int>)
    requires |q| == |w| && forall i :: 0 <= i < |q| ==> q[i] == 0
    ensures Dot(q, w) == 0
  {
    if q != [] {
      ZeroDot(q[1..], w[1..]);
    }
  }

  function Unit(n: nat, i: nat): (u: seq<int>)
    ensures |u| == n && forall k :: 0 <= k < n ==> u[k] == if k == i then 1 else 0
  {
    seq(n, k => if k == i then 1 else 0)
  }

  lemma {:induction false} UnitDot(q: seq<int>, i: nat, w: seq<int>)
    requires |q| == |w| && i < |w| && forall k :: 0 <= k < |q| ==> q[k] == if k == i then 1 else 0
    ensures Dot(q, w) == w[i]
    decreases |w|
  {
    if i == 0 {
      ZeroDot(q[1..], w[1..]);
    } else {
      UnitDot(q[1..], i - 1, w[1..]);
    }
  }

  lemma LocalSlice(g: Geometry, c: int, offset: int)
    requires Placed(g) && 0 <= c < |g.src.rows| && c < |g.dst.rows| && LocalAt(g, c, offset)
    ensures var a, b := SrcStart(g, c), DstStart(g, c);
            forall i :: 0 <= i < |a| ==> a[i] <= b[i] && b[i] + g.dst.shape[i] <= a[i] + g.src.shape[i]
  {
    var b := DstStart(g, c);
    var last := Pred(g.dst.shape);
    assert Below(Zeros(|b|), g.dst.shape) && Below(last, g.dst.shape);
    assert LocalPoint(g, c, offset, Zeros(|b|)) && LocalPoint(g, c, offset, last);
    assert forall i :: 0 <= i < |b| ==> Plus(b, Zeros(|b|))[i] == b[i] && Plus(b, last)[i] == b[i] + g.dst.shape[i] - 1;
  }

  lemma LocalMeets(g: Geometry, c: int, offset: int)
    requires Placed(g) && 0 <= c < |g.src.rows| && c < |g.dst.rows| && LocalAt(g, c, offset)
    ensures MeetsAt(g, c, c)
    ensures var f := FragmentOf(g, c, c);
            f.start == DstStart(g, c) && f.extent == g.dst.shape && f.dstOffset == 0
  {
    LocalSlice(g, c, offset);
    WholeSlice(SrcStart(g, c), g.src.shape, DstStart(g, c), g.dst.shape);
    var b := DstStart(g, c);
    ZeroDot(Minus(b, b), Strides(g.dst.shape, g.bytes));
  }

  /** The address of a child point relative to the slice corner. */
  lemma LocalAddress(g: Geometry, c: int, offset: int, l: seq<int>)
    requires Placed(g) && 0 <= c < |g.src.rows| && c < |g.dst.rows| && LocalAt(g, c, offset) && Below(l, g.dst.shape)
    ensures var a, b, ss := SrcStart(g, c), DstStart(g, c), Strides(g.src.shape, g.bytes);
            Dot(Minus(b, a), ss) + Dot(l, ss) == offset + Dot(l, Strides(g.dst.shape, g.bytes))
  {
    var a, b := SrcStart(g, c), DstStart(g, c);
    assert LocalPoint(g, c, offset, l);
    Telescopes(b, a, Plus(b, l), Strides(g.src.shape, g.bytes));
    PlusMinus(b, l);
  }

  lemma LocalOffset(g: Geometry, c: int, offset: int)
    requires Placed(g) && 0 <= c < |g.src.rows| && c < |g.dst.rows| && LocalAt(g, c, offset)
    ensures Dot(Minus(DstStart(g, c), SrcStart(g, c)), Strides(g.src.shape, g.bytes)) == offset
  {
    var zero := Zeros(|g.dst.shape|);
    LocalAddress(g, c, offset, zero);
    ZeroDot(zero, Strides(g.src.shape, g.bytes));
    ZeroDot(zero, Strides(g.dst.shape, g.bytes));
  }

  lemma LocalWalk(g: Geometry, c: int, offset: int)
    requires Placed(g) && 0 <= c < |g.src.rows| && c < |g.dst.rows| && LocalAt(g, c, offset)
    ensures SameWalk(g.dst.shape, Strides(g.src.shape, g.bytes), Strides(g.dst.shape, g.bytes))
  {
    var ss, ds := Strides(g.src.shape, g.bytes), Strides(g.dst.shape, g.bytes);
    LocalOffset(g, c, offset);
    forall i | 0 <= i < |g.dst.shape| && g.dst.shape[i] > 1 ensures ss[i] == ds[i] {
      var unit := Unit(|g.dst.shape|, i);
      LocalAddress(g, c, offset, unit);
      UnitDot(unit, i, ss);
      UnitDot(unit, i, ds);
    }
  }

  lemma LocalCompact(g: Geometry, c: int, offset: int)
    requires Placed(g) && 0 <= c < |g.src.rows| && c < |g.dst.rows| && LocalAt(g, c, offset)
    ensures MeetsAt(g, c, c) && Compact(g.dst.shape, FragmentOf(g, c, c), c) && FragmentOf(g, c, c).srcOffset == offset
  {
    LocalMeets(g, c, offset);
    LocalOffset(g, c, offset);
    LocalWalk(g, c, offset);
  }

  /** No other source feeds a core that reads its own slice. */
  lemma OnlySelf(g: Geometry, parent: seq<nat>, extent: seq<nat>, c: int, offset: int, s: int)
    requires Sound(g, parent, extent) && Placed(g) && 0 <= c < |g.src.rows| && c < |g.dst.rows| && LocalAt(g, c, offset)
    requires 0 <= s < |g.src.rows| && MeetsAt(g, s, c)
    ensures s == c
  {
    var a, b := SrcStart(g, s), DstStart(g, c);
    MeetsShares(a, g.src.shape, b, g.dst.shape);
    var y :| InSlice(y, a, g.src.shape) && InSlice(y, b, g.dst.shape);
    DestInParent(g, parent, extent, c, y);
    var owner := SourceOwner(g.src, parent, y);
    LocalSlice(g, c, offset);
    assert InSlice(y, SrcStart(g, c), g.src.shape);
  }

  lemma {:induction false} SoleFragment(g: Geometry, c: int, n: nat)
    requires Placed(g) && 0 <= c < |g.src.rows| && c < |g.dst.rows| && n <= |g.src.rows| && MeetsAt(g, c, c)
    requires forall s :: 0 <= s < |g.src.rows| && s != c ==> !MeetsAt(g, s, c)
    ensures Incoming(g, c, n) == if n <= c then [] else [FragmentOf(g, c, c)]
    decreases n
  {
    if n > 0 {
      SoleFragment(g, c, n - 1);
    }
  }

  lemma SelfIncoming(g: Geometry, parent: seq<nat>, extent: seq<nat>, c: int, offset: int)
    requires Sound(g, parent, extent) && Placed(g) && 0 <= c < |g.src.rows| && c < |g.dst.rows| && LocalAt(g, c, offset)
    ensures MeetsAt(g, c, c) && Incoming(g, c, |g.src.rows|) == [FragmentOf(g, c, c)]
  {
    LocalMeets(g, c, offset);
    forall s | 0 <= s < |g.src.rows| && s != c ensures !MeetsAt(g, s, c) {
      if MeetsAt(g, s, c) {
        OnlySelf(g, parent, extent, c, offset, s);
      }
    }
    SoleFragment(g, c, |g.src.rows|);
  }

  /** Every destination takes one fragment. */
  ghost predicate OneEach(g: Geometry)
    requires Placed(g)
  {
    forall k :: 0 <= k < |g.dst.rows| ==> |Incoming(g, k, |g.src.rows|)| == 1
  }

  lemma {:induction false} SelfCount(g: Geometry, m: nat)
    requires Placed(g) && m <= |g.dst.rows| && OneEach(g)
    ensures |AllFragments(g, m)| == m
    decreases m
  {
    if m > 0 {
      SelfCount(g, m - 1);
    }
  }

  /** Then the fragments are listed in core order. */
  lemma {:induction false} SelfFragments(g: Geometry, m: nat, c: nat)
    requires Placed(g) && c < m <= |g.dst.rows| && OneEach(g) && |AllFragments(g, m)| == m
    ensures AllFragments(g, m)[c] == Incoming(g, c, |g.src.rows|)[0]
    decreases m
  {
    SelfCount(g, m - 1);
    var before, last := AllFragments(g, m - 1), Incoming(g, m - 1, |g.src.rows|);
    assert AllFragments(g, m) == before + last;
    if c < m - 1 {
      SelfFragments(g, m - 1, c);
    }
  }

  lemma LocalSole(cert: Certificate, offset: int)
    requires Certified(cert) && ReadsLocally(cert.at, offset)
    ensures |cert.fragments| == |cert.at.dst.rows|
    ensures forall c :: 0 <= c < |cert.fragments| ==> 
              |Incoming(cert.at, c, |cert.at.src.rows|)| == 1 && Incoming(cert.at, c, |cert.at.src.rows|)[0] == cert.fragments[c]
  {
    var g := cert.at;
    forall c | 0 <= c < |g.dst.rows| ensures |Incoming(g, c, |g.src.rows|)| == 1 {
      assert LocalAt(g, c, offset);
      SelfIncoming(g, cert.parent, cert.extent, c, offset);
    }
    SelfCount(g, |g.dst.rows|);
    forall c | 0 <= c < |g.dst.rows| ensures Incoming(g, c, |g.src.rows|)[0] == cert.fragments[c] {
      SelfFragments(g, |g.dst.rows|, c);
    }
  }

  lemma LocalAllCompact(cert: Certificate, offset: int)
    requires Certified(cert) && ReadsLocally(cert.at, offset)
    ensures AllCompact(cert, offset)
  {
    LocalSole(cert, offset);
    forall c | 0 <= c < |cert.fragments|
      ensures Compact(cert.at.dst.shape, cert.fragments[c], c) && cert.fragments[c].srcOffset == offset
    {
      assert LocalAt(cert.at, c, offset);
      SelfIncoming(cert.at, cert.parent, cert.extent, c, offset);
      LocalCompact(cert.at, c, offset);
    }
  }

  lemma CompactAllLocal(cert: Certificate, offset: int)
    requires Certified(cert) && AllCompact(cert, offset)
    ensures ReadsLocally(cert.at, offset)
  {
    var g := cert.at;
    AllFragmentsAre(g, |g.dst.rows|);
    forall c | 0 <= c < |g.src.rows| ensures LocalAt(g, c, offset) {
      var f := cert.fragments[c];
      assert f in cert.fragments;
      CompactReads(g, c);
    }
  }

  // --- The check ---

  /** The byte offsets of the first n fragments. */
  ghost predicate Collected(fragments: seq<Fragment>, n: nat, offsets: set<int>)
    requires n <= |fragments|
  {
    && (forall k :: 0 <= k < n ==> fragments[k].srcOffset in offsets)
    && (forall x :: x in offsets ==> exists k :: 0 <= k < n && fragments[k].srcOffset == x)
  }

  lemma OneOffset(cert: Certificate, offsets: set<int>, offset: int)
    requires 0 < |cert.fragments| && Collected(cert.fragments, |cert.fragments|, offsets) && AllCompact(cert, offset)
    ensures |offsets| == 1
  {
    assert cert.fragments[0].srcOffset in offsets;
    forall x ensures x in offsets <==> x == offset {
    }
    assert offsets == {offset};
  }

  method CompactOffset(cert: Certificate) returns (r: Result<int>)
    requires 0 < |cert.at.src.rows|
    ensures r.Ok? <==> exists offset :: AllCompact(cert, offset)
    ensures r.Ok? ==> AllCompact(cert, r.value)
  {
    var count := |cert.at.src.rows|;
    if |cert.at.dst.rows| != count || |cert.fragments| != count {
      return Err;
    }
    var offsets: set<int> := {};
    for c := 0 to count
      invariant forall k :: 0 <= k < c ==> Compact(cert.at.dst.shape, cert.fragments[k], k)
      invariant Collected(cert.fragments, c, offsets)
    {
      if !Compact(cert.at.dst.shape, cert.fragments[c], c) {
        return Err;
      }
      offsets := offsets + {cert.fragments[c].srcOffset};
    }
    if |offsets| != 1 {
      forall offset ensures !AllCompact(cert, offset) {
        if AllCompact(cert, offset) {
          OneOffset(cert, offsets, offset);
        }
      }
      return Err;
    }
    var common := Listing(offsets);
    assert AllCompact(cert, common[0]);
    r := Ok(common[0]);
  }

  method LocalSubrangeByteOffset(cert: Certificate) returns (r: Result<int>)
    requires Certified(cert)
    ensures r.Ok? <==> exists offset :: ReadsLocally(cert.at, offset)
    ensures r.Ok? ==> ReadsLocally(cert.at, r.value)
  {
    r := CompactOffset(cert);
    forall offset ensures AllCompact(cert, offset) <==> ReadsLocally(cert.at, offset) {
      LocalIffCompact(cert, offset);
    }
  }

  lemma LocalIffCompact(cert: Certificate, offset: int)
    requires Certified(cert)
    ensures AllCompact(cert, offset) <==> ReadsLocally(cert.at, offset)
  {
    if AllCompact(cert, offset) {
      CompactAllLocal(cert, offset);
    } else if ReadsLocally(cert.at, offset) {
      LocalAllCompact(cert, offset);
    }
  }
}
