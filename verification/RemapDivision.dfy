/** Tensor ownership re-expressed on aligned loop segments (`remap_work_division` of
    `torch_spyre/_inductor/core_mapping.py`). */
module RemapDivision {
  import opened Arith
  import opened Radix
  import opened Wrappers
  import opened Ownership
  import opened AlignedSplit
  import opened AlignedRemap

  // --- What the loops put on the segments ---

  /** One loop's share of a segment: how it splits the segment and who owns each part. */
  datatype Piece = Piece(dim: Symbol, factor: pos, slot: Expr)

  /** The digit of the old slot that segment i keeps. */
  function PieceAt(slot: Expr, factors: seq<nat>, segments: seq<Segment>, i: nat): Piece
    requires i < |factors| == |segments| && AllPositive(factors)
  {
    ProdPositive(factors[..i]);
    Piece(segments[i].dim, factors[i], SegmentSlot(slot, Prod(factors[..i]), factors[i]))
  }

  /** The pieces of the first n segments that are split. */
  function Pieces(slot: Expr, factors: seq<nat>, segments: seq<Segment>, n: nat): seq<Piece>
    requires n <= |factors| == |segments| && AllPositive(factors)
  {
    if n == 0 then []
    else Pieces(slot, factors, segments, n - 1) + if factors[n - 1] == 1 then [] else [PieceAt(slot, factors, segments, n - 1)]
  }

  /** Two pieces on one segment split and own it alike. */
  predicate Alike(p: Piece, q: Piece, cores: int) {
    p.factor == q.factor && 0 < cores && SameSlot(p.slot, q.slot, cores)
  }

  /** No two pieces disagree on a segment. */
  ghost predicate Compatible(pieces: seq<Piece>, cores: int) {
    forall i, j :: 0 <= i < j < |pieces| && pieces[i].dim == pieces[j].dim ==> Alike(pieces[i], pieces[j], cores)
  }

  /** The division's entry for a segment is a piece. */
  ghost predicate EntryIs(d: Division, p: Piece) {
    && p.dim in d.splits && d.splits[p.dim] == p.factor
    && p.dim in d.owners && d.owners[p.dim] == p.slot
  }

  /** The division has exactly the entries that the pieces give: each entry is one of
      them, and agrees with every piece on its segment. */
  ghost predicate Holds(d: Division, pieces: seq<Piece>) {
    && d.owners.Keys == d.splits.Keys
    && (forall s :: s in d.splits ==> exists i :: 0 <= i < |pieces| && pieces[i].dim == s && EntryIs(d, pieces[i]))
    && forall i :: 0 <= i < |pieces| ==> Entered(d, pieces[i])
  }

  ghost predicate Entered(d: Division, p: Piece) {
    && p.dim in d.splits && d.splits[p.dim] == p.factor && p.dim in d.owners
    && (d.owners[p.dim] == p.slot || (0 < d.cores && SameSlot(d.owners[p.dim], p.slot, d.cores)))
  }

  function Put(d: Division, p: Piece): Division {
    d.(splits := d.splits[p.dim := p.factor], owners := d.owners[p.dim := p.slot])
  }

  /** The entry already there differs from the piece. */
  predicate Conflicts(d: Division, p: Piece) {
    p.dim in d.splits &&
    (d.splits[p.dim] != p.factor || p.dim !in d.owners || d.cores <= 0 || !SameSlot(d.owners[p.dim], p.slot, d.cores))
  }

  lemma ConflictShows(d: Division, pieces: seq<Piece>, p: Piece)
    requires Holds(d, pieces) && Conflicts(d, p)
    ensures !Compatible(pieces + [p], d.cores)
  {
    var i :| 0 <= i < |pieces| && pieces[i].dim == p.dim && EntryIs(d, pieces[i]);
    var all := pieces + [p];
    assert all[i].dim == all[|pieces|].dim && !Alike(all[i], all[|pieces|], d.cores);
  }

  lemma PutHolds(d: Division, pieces: seq<Piece>, p: Piece)
    requires Holds(d, pieces) && !Conflicts(d, p)
    ensures Holds(Put(d, p), pieces + [p])
  {
    var d', all := Put(d, p), pieces + [p];
    forall i | 0 <= i < |all| ensures Entered(d', all[i]) {
      if i < |pieces| {
        assert Entered(d, pieces[i]);
      }
    }
    forall s | s in d'.splits ensures exists i :: 0 <= i < |all| && all[i].dim == s && EntryIs(d', all[i]) {
      if s == p.dim {
        assert all[|pieces|].dim == s && EntryIs(d', all[|pieces|]);
      } else {
        var i :| 0 <= i < |pieces| && pieces[i].dim == s && EntryIs(d, pieces[i]);
        assert all[i].dim == s && EntryIs(d', all[i]);
      }
    }
  }

  lemma PutCompatible(d: Division, pieces: seq<Piece>, p: Piece)
    requires Holds(d, pieces) && !Conflicts(d, p) && Compatible(pieces, d.cores)
    ensures Compatible(pieces + [p], d.cores)
  {
    var all := pieces + [p];
    forall i, j | 0 <= i < j < |all| && all[i].dim == all[j].dim ensures Alike(all[i], all[j], d.cores) {
      if j == |pieces| {
        assert Entered(d, pieces[i]);
      }
    }
  }

  lemma PutNext(d: Division, pieces: seq<Piece>, p: Piece)
    requires Holds(d, pieces) && !Conflicts(d, p) && Compatible(pieces, d.cores)
    ensures Holds(Put(d, p), pieces + [p]) && Compatible(pieces + [p], d.cores) && Put(d, p).cores == d.cores
  {
    PutHolds(d, pieces, p);
    PutCompatible(d, pieces, p);
  }

  lemma CompatiblePrefix(pieces: seq<Piece>, more: seq<Piece>, cores: int)
    requires Compatible(pieces + more, cores)
    ensures Compatible(pieces, cores)
  {
    forall i, j | 0 <= i < j < |pieces| && pieces[i].dim == pieces[j].dim ensures Alike(pieces[i], pieces[j], cores) {
      var all := pieces + more;
      assert all[i] == pieces[i] && all[j] == pieces[j];
    }
  }

  lemma NextStride(factors: seq<nat>, i: nat)
    requires i < |factors| && AllPositive(factors)
    ensures 0 < Prod(factors[..i]) * factors[i] == Prod(factors[..i + 1])
  {
    ProdPositive(factors[..i]);
    ProdSnoc(factors, i);
    MulPositive(Prod(factors[..i]), factors[i]);
  }

  /** The division holds compatible pieces. */
  ghost predicate Placed(d: Division, pieces: seq<Piece>) {
    Holds(d, pieces) && Compatible(pieces, d.cores)
  }

  /** Put the piece of segment i, if the segment is split. */
  method PutSegment(slot: Expr, factors: seq<nat>, segments: seq<Segment>, i: nat, stride: pos, d: Division, ghost pieces: seq<Piece>)
    returns (r: Result<Division>)
    requires i < |factors| == |segments| && AllPositive(factors) && stride == Prod(factors[..i])
    requires Placed(d, pieces + Pieces(slot, factors, segments, i))
    ensures r.Ok? ==> r.value.cores == d.cores && Placed(r.value, pieces + Pieces(slot, factors, segments, i + 1))
    ensures r.Err? ==> !Compatible(pieces + Pieces(slot, factors, segments, |segments|), d.cores)
  {
    if factors[i] == 1 {
      assert Pieces(slot, factors, segments, i + 1) == Pieces(slot, factors, segments, i);
      return Ok(d);
    }
    ghost var done := pieces + Pieces(slot, factors, segments, i);
    var p := Piece(segments[i].dim, factors[i], SegmentSlot(slot, stride, factors[i]));
    assert p == PieceAt(slot, factors, segments, i);
    assert pieces + Pieces(slot, factors, segments, i + 1) == done + [p];
    if Conflicts(d, p) {
      ConflictShows(d, done, p);
      LaterPieces(slot, factors, segments, pieces, i + 1, d.cores);
      return Err;
    }
    PutNext(d, done, p);
    r := Ok(Put(d, p));
  }

  /** Put one loop's pieces on the segments. */
  method RemapSegments(slot: Expr, factors: seq<nat>, segments: seq<Segment>, before: Division, ghost pieces: seq<Piece>)
    returns (r: Result<Division>)
    requires |factors| == |segments| && AllPositive(factors) && Placed(before, pieces)
    ensures r.Ok? <==> Compatible(pieces + Pieces(slot, factors, segments, |segments|), before.cores)
    ensures r.Ok? ==> r.value.cores == before.cores && Placed(r.value, pieces + Pieces(slot, factors, segments, |segments|))
  {
    var d, stride := before, 1;
    assert pieces + [] == pieces;
    for i := 0 to |segments|
      invariant 0 < stride == Prod(factors[..i]) && d.cores == before.cores
      invariant Placed(d, pieces + Pieces(slot, factors, segments, i))
    {
      r := PutSegment(slot, factors, segments, i, stride, d, pieces);
      if r.Err? {
        return;
      }
      NextStride(factors, i);
      d, stride := r.value, stride * factors[i];
    }
    r := Ok(d);
  }

  /** A conflict among the first pieces is a conflict among all. */
  lemma {:induction false} LaterPieces(slot: Expr, factors: seq<nat>, segments: seq<Segment>, pieces: seq<Piece>, i: nat, cores: int)
    requires i <= |factors| == |segments| && AllPositive(factors)
    requires !Compatible(pieces + Pieces(slot, factors, segments, i), cores)
    ensures !Compatible(pieces + Pieces(slot, factors, segments, |segments|), cores)
    decreases |segments| - i
  {
    if i < |segments| {
      var now, next := Pieces(slot, factors, segments, i), Pieces(slot, factors, segments, i + 1);
      var more := if factors[i] == 1 then [] else [PieceAt(slot, factors, segments, i)];
      assert pieces + next == (pieces + now) + more;
      if Compatible(pieces + next, cores) {
        CompatiblePrefix(pieces + now, more, cores);
      }
      LaterPieces(slot, factors, segments, pieces, i + 1, cores);
    }
  }

  // --- All loops ---

  /** The loop has an alignment and an owner, and its split can be placed on its
      segments. */
  predicate Placeable(division: Division, remap: map<Symbol, seq<Segment>>, d: Symbol)
    requires d in division.splits && 0 < division.splits[d]
  {
    d in remap && d in division.owners && SegmentFactors(division.splits[d], remap[d]).1 == 1
  }

  lemma FactorsFit(split: nat, segments: seq<Segment>)
    requires 0 < split
    ensures |SegmentFactors(split, segments).0| == |segments| && AllPositive(SegmentFactors(split, segments).0)
  {
    DistributeComplete(split, Bases(segments));
  }

  function PiecesOf(division: Division, remap: map<Symbol, seq<Segment>>, d: Symbol): seq<Piece>
    requires d in division.splits && 0 < division.splits[d] && Placeable(division, remap, d)
  {
    FactorsFit(division.splits[d], remap[d]);
    Pieces(division.owners[d], SegmentFactors(division.splits[d], remap[d]).0, remap[d], |remap[d]|)
  }

  predicate AllPlaceable(division: Division, remap: map<Symbol, seq<Segment>>, dims: seq<Symbol>)
    requires PositiveSplits(division, dims)
  {
    forall i :: 0 <= i < |dims| ==> Placeable(division, remap, dims[i])
  }

  predicate PositiveSplits(division: Division, dims: seq<Symbol>) {
    forall i :: 0 <= i < |dims| ==> dims[i] in division.splits && 0 < division.splits[dims[i]]
  }

  /** Everything the loops put on segments, in the order they are visited. */
  function AllPieces(division: Division, remap: map<Symbol, seq<Segment>>, dims: seq<Symbol>): seq<Piece>
    requires PositiveSplits(division, dims) && AllPlaceable(division, remap, dims)
  {
    if dims == [] then []
    else
      var n := |dims| - 1;
      AllPieces(division, remap, dims[..n]) + PiecesOf(division, remap, dims[n])
  }

  lemma PiecesNext(division: Division, remap: map<Symbol, seq<Segment>>, dims: seq<Symbol>, i: nat)
    requires i < |dims| && PositiveSplits(division, dims) && AllPlaceable(division, remap, dims[..i + 1])
    ensures AllPlaceable(division, remap, dims[..i]) && Placeable(division, remap, dims[i])
    ensures AllPieces(division, remap, dims[..i + 1]) == AllPieces(division, remap, dims[..i]) + PiecesOf(division, remap, dims[i])
  {
    assert dims[..i + 1][..i] == dims[..i] && dims[..i + 1][i] == dims[i];
  }

  /** A conflict among the first loops is a conflict among all. */
  lemma {:induction false} LaterLoops(division: Division, remap: map<Symbol, seq<Segment>>, dims: seq<Symbol>, i: nat)
    requires PositiveSplits(division, dims) && AllPlaceable(division, remap, dims) && i <= |dims|
    requires !Compatible(AllPieces(division, remap, dims[..i]), division.cores)
    ensures !Compatible(AllPieces(division, remap, dims), division.cores)
    decreases |dims| - i
  {
    if i == |dims| {
      assert dims[..i] == dims;
    } else {
      PiecesNext(division, remap, dims, i);
      var now, more := AllPieces(division, remap, dims[..i]), PiecesOf(division, remap, dims[i]);
      if Compatible(now + more, division.cores) {
        CompatiblePrefix(now, more, division.cores);
      }
      LaterLoops(division, remap, dims, i + 1);
    }
  }

  /** One loop: refused when its split has a remainder or its pieces conflict. */
  method RemapDimension(slot: Expr, split: nat, segments: seq<Segment>, before: Division, ghost pieces: seq<Piece>)
    returns (r: Result<Division>)
    requires 0 < split && Placed(before, pieces)
    ensures |SegmentFactors(split, segments).0| == |segments| && AllPositive(SegmentFactors(split, segments).0)
    ensures var factors := SegmentFactors(split, segments).0;
            var after := pieces + Pieces(slot, factors, segments, |segments|);
            && (r.Ok? <==> SegmentFactors(split, segments).1 == 1 && Compatible(after, before.cores))
            && (r.Ok? ==> r.value.cores == before.cores && Placed(r.value, after))
  {
    FactorsFit(split, segments);
    var factors, remaining := [split], 1;
    if |segments| != 1 {
      factors, remaining := DistributeAlignedSplit(split, Bases(segments));
    }
    if remaining != 1 {
      return Err;
    }
    r := RemapSegments(slot, factors, segments, before, pieces);
  }

  /** Loop i of the list. */
  method RemapLoop(division: Division, dims: seq<Symbol>, remap: map<Symbol, seq<Segment>>, i: nat, before: Division)
    returns (r: Result<Division>)
    requires PositiveSplits(division, dims) && i < |dims| && before.cores == division.cores
    requires AllPlaceable(division, remap, dims[..i]) && Placed(before, AllPieces(division, remap, dims[..i]))
    ensures r.Ok? ==> AllPlaceable(division, remap, dims[..i + 1]) && r.value.cores == division.cores
    ensures r.Ok? ==> Placed(r.value, AllPieces(division, remap, dims[..i + 1]))
    ensures r.Err? ==> !(AllPlaceable(division, remap, dims) && Compatible(AllPieces(division, remap, dims), division.cores))
  {
    var d := dims[i];
    if d !in remap || d !in division.owners {
      return Err;
    }
    ghost var pieces := AllPieces(division, remap, dims[..i]);
    r := RemapDimension(division.owners[d], division.splits[d], remap[d], before, pieces);
    if r.Ok? {
      assert AllPlaceable(division, remap, dims[..i + 1]);
      PiecesNext(division, remap, dims, i);
    } else if AllPlaceable(division, remap, dims) {
      PiecesNext(division, remap, dims, i);
      LaterLoops(division, remap, dims, i + 1);
    }
  }

  /** `dims` lists the loops of the division in the order they are visited. */
  method RemapWorkDivision(division: Division, dims: seq<Symbol>, remap: map<Symbol, seq<Segment>>) returns (r: Result<Division>)
    requires PositiveSplits(division, dims) && forall d :: d in division.splits ==> d in dims
    ensures r.Ok? <==> AllPlaceable(division, remap, dims) && Compatible(AllPieces(division, remap, dims), division.cores)
    ensures r.Ok? ==> r.value.cores == division.cores && Holds(r.value, AllPieces(division, remap, dims))
  {
    var after := Division(map[], map[], division.cores);
    for i := 0 to |dims|
      invariant after.cores == division.cores && AllPlaceable(division, remap, dims[..i])
      invariant Placed(after, AllPieces(division, remap, dims[..i]))
    {
      r := RemapLoop(division, dims, remap, i, after);
      if r.Err? {
        return;
      }
      after := r.value;
    }
    assert dims[..|dims|] == dims;
    r := Ok(after);
  }

  // --- Loops that share no segment ---

  /** Segments of different loops, and of one loop, have different symbols. */
  ghost predicate Separate(remap: map<Symbol, seq<Segment>>) {
    forall a, b, i, j ::
      (a in remap && b in remap && 0 <= i < |remap[a]| && 0 <= j < |remap[b]| && remap[a][i].dim == remap[b][j].dim) ==>
        a == b && i == j
  }

  /** Where a piece comes from. */
  ghost predicate From(division: Division, remap: map<Symbol, seq<Segment>>, p: Piece, d: Symbol, i: nat)
    requires d in division.splits && 0 < division.splits[d] && Placeable(division, remap, d)
  {
    FactorsFit(division.splits[d], remap[d]);
    var factors := SegmentFactors(division.splits[d], remap[d]).0;
    i < |remap[d]| && factors[i] != 1 && p == PieceAt(division.owners[d], factors, remap[d], i)
  }

  lemma {:induction false} PieceFrom(slot: Expr, factors: seq<nat>, segments: seq<Segment>, n: nat, p: Piece) returns (i: nat)
    requires n <= |factors| == |segments| && AllPositive(factors) && p in Pieces(slot, factors, segments, n)
    ensures i < n && factors[i] != 1 && p == PieceAt(slot, factors, segments, i)
    decreases n
  {
    if p in Pieces(slot, factors, segments, n - 1) {
      i := PieceFrom(slot, factors, segments, n - 1, p);
    } else {
      i := n - 1;
    }
  }

  lemma {:induction false} PieceIn(slot: Expr, factors: seq<nat>, segments: seq<Segment>, n: nat, i: nat)
    requires i < n <= |factors| == |segments| && AllPositive(factors) && factors[i] != 1
    ensures PieceAt(slot, factors, segments, i) in Pieces(slot, factors, segments, n)
    decreases n
  {
    if i < n - 1 {
      PieceIn(slot, factors, segments, n - 1, i);
    }
  }

  lemma {:induction false} AllPieceFrom(division: Division, remap: map<Symbol, seq<Segment>>, dims: seq<Symbol>, p: Piece)
    returns (d: Symbol, i: nat)
    requires PositiveSplits(division, dims) && AllPlaceable(division, remap, dims) && p in AllPieces(division, remap, dims)
    ensures d in dims && d in division.splits && 0 < division.splits[d] && Placeable(division, remap, d)
    ensures From(division, remap, p, d, i)
    decreases dims
  {
    var n := |dims| - 1;
    if p in AllPieces(division, remap, dims[..n]) {
      d, i := AllPieceFrom(division, remap, dims[..n], p);
    } else {
      d := dims[n];
      FactorsFit(division.splits[d], remap[d]);
      i := PieceFrom(division.owners[d], SegmentFactors(division.splits[d], remap[d]).0, remap[d], |remap[d]|, p);
    }
  }

  lemma {:induction false} AllPieceIn(division: Division, remap: map<Symbol, seq<Segment>>, dims: seq<Symbol>, k: nat, p: Piece)
    requires PositiveSplits(division, dims) && AllPlaceable(division, remap, dims) && k < |dims|
    requires p in PiecesOf(division, remap, dims[k])
    ensures p in AllPieces(division, remap, dims)
    decreases dims
  {
    if k < |dims| - 1 {
      AllPieceIn(division, remap, dims[..|dims| - 1], k, p);
    }
  }

  ghost predicate DistinctDims(pieces: seq<Piece>) {
    forall i, j :: 0 <= i < j < |pieces| ==> pieces[i].dim != pieces[j].dim
  }

  lemma DistinctConcat(a: seq<Piece>, b: seq<Piece>)
    requires DistinctDims(a) && DistinctDims(b) && forall p, q :: p in a && q in b ==> p.dim != q.dim
    ensures DistinctDims(a + b)
  {
    forall i, j | 0 <= i < |a| && 0 <= j < |b| ensures a[i].dim != b[j].dim {
      assert a[i] in a && b[j] in b;
    }
  }

  lemma {:induction false} PiecesDistinct(slot: Expr, factors: seq<nat>, segments: seq<Segment>, n: nat)
    requires n <= |factors| == |segments| && AllPositive(factors)
    requires forall i, j :: 0 <= i < j < |segments| ==> segments[i].dim != segments[j].dim
    ensures DistinctDims(Pieces(slot, factors, segments, n))
    decreases n
  {
    if n > 0 {
      PiecesDistinct(slot, factors, segments, n - 1);
      var before := Pieces(slot, factors, segments, n - 1);
      forall p | p in before ensures p.dim != segments[n - 1].dim {
        var i := PieceFrom(slot, factors, segments, n - 1, p);
      }
      DistinctConcat(before, if factors[n - 1] == 1 then [] else [PieceAt(slot, factors, segments, n - 1)]);
    }
  }

  /** Loops that share no segment never conflict. */
  lemma {:induction false} SeparateCompatible(division: Division, remap: map<Symbol, seq<Segment>>, dims: seq<Symbol>)
    requires Separate(remap) && Distinct(dims) && PositiveSplits(division, dims) && AllPlaceable(division, remap, dims)
    ensures DistinctDims(AllPieces(division, remap, dims)) && Compatible(AllPieces(division, remap, dims), division.cores)
    decreases dims
  {
    if dims != [] {
      var n := |dims| - 1;
      var d, front := dims[n], dims[..n];
      SeparateCompatible(division, remap, front);
      FactorsFit(division.splits[d], remap[d]);
      var factors := SegmentFactors(division.splits[d], remap[d]).0;
      PiecesDistinct(division.owners[d], factors, remap[d], |remap[d]|);
      forall p, q | p in AllPieces(division, remap, front) && q in PiecesOf(division, remap, d) ensures p.dim != q.dim {
        var e, i := AllPieceFrom(division, remap, front, p);
        var j := PieceFrom(division.owners[d], factors, remap[d], |remap[d]|, q);
        FactorsFit(division.splits[e], remap[e]);
        assert p.dim == remap[e][i].dim && q.dim == remap[d][j].dim;
      }
      DistinctConcat(AllPieces(division, remap, front), PiecesOf(division, remap, d));
    }
  }

  /** Each segment of a loop that shares none has the loop's factor and its digit of the
      old slot. */
  lemma SeparateRemapped(division: Division, remap: map<Symbol, seq<Segment>>, dims: seq<Symbol>, after: Division, k: nat)
    requires Separate(remap) && PositiveSplits(division, dims) && AllPlaceable(division, remap, dims) && k < |dims|
    requires Holds(after, AllPieces(division, remap, dims))
    ensures Remapped(division.owners[dims[k]], SegmentFactors(division.splits[dims[k]], remap[dims[k]]).0, remap[dims[k]], after)
  {
    var d := dims[k];
    var slot, factors, segments := division.owners[d], SegmentFactors(division.splits[d], remap[d]).0, remap[d];
    FactorsFit(division.splits[d], segments);
    forall i | 0 <= i < |segments|
      ensures SplitIn(after, segments[i].dim) == factors[i]
      ensures forall c :: SlotIn(after, segments[i].dim, c) == Digits(Eval(slot, c), factors)[i]
    {
      SegmentRemapped(division, remap, dims, after, k, i);
    }
  }

  lemma SegmentRemapped(division: Division, remap: map<Symbol, seq<Segment>>, dims: seq<Symbol>, after: Division, k: nat, i: nat)
    requires Separate(remap) && PositiveSplits(division, dims) && AllPlaceable(division, remap, dims) && k < |dims|
    requires Holds(after, AllPieces(division, remap, dims)) && i < |remap[dims[k]]|
    ensures var d := dims[k];
            var factors := SegmentFactors(division.splits[d], remap[d]).0;
            && |factors| == |remap[d]| && AllPositive(factors) && SplitIn(after, remap[d][i].dim) == factors[i]
            && forall c :: SlotIn(after, remap[d][i].dim, c) == Digits(Eval(division.owners[d], c), factors)[i]
  {
    var d := dims[k];
    var slot, factors, segments := division.owners[d], SegmentFactors(division.splits[d], remap[d]).0, remap[d];
    FactorsFit(division.splits[d], segments);
    var dim := segments[i].dim;
    if factors[i] != 1 {
      PieceIn(slot, factors, segments, |segments|, i);
      AllPieceIn(division, remap, dims, k, PieceAt(slot, factors, segments, i));
    }
    if dim in after.splits {
      OnlyPiece(division, remap, dims, after, k, i);
    }
    forall c ensures SlotIn(after, dim, c) == Digits(Eval(slot, c), factors)[i] {
      DigitAt(Eval(slot, c), factors, i);
      ProdPositive(factors[..i]);
      assert factors[i] != 1 ==> Eval(PieceAt(slot, factors, segments, i).slot, c) == Eval(slot, c) / Prod(factors[..i]) % factors[i];
    }
  }

  /** The entry of a segment that one loop has to itself is that loop's piece. */
  lemma OnlyPiece(division: Division, remap: map<Symbol, seq<Segment>>, dims: seq<Symbol>, after: Division, k: nat, i: nat)
    requires Separate(remap) && PositiveSplits(division, dims) && AllPlaceable(division, remap, dims) && k < |dims|
    requires Holds(after, AllPieces(division, remap, dims)) && i < |remap[dims[k]]| && remap[dims[k]][i].dim in after.splits
    ensures var factors := SegmentFactors(division.splits[dims[k]], remap[dims[k]]).0;
            && |factors| == |remap[dims[k]]| && AllPositive(factors) && factors[i] != 1
            && EntryIs(after, PieceAt(division.owners[dims[k]], factors, remap[dims[k]], i))
  {
    var pieces, dim := AllPieces(division, remap, dims), remap[dims[k]][i].dim;
    var n :| 0 <= n < |pieces| && pieces[n].dim == dim && EntryIs(after, pieces[n]);
    var e, j := AllPieceFrom(division, remap, dims, pieces[n]);
    FactorsFit(division.splits[e], remap[e]);
    assert e == dims[k] && j == i;
  }
}
