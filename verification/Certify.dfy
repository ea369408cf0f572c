/** The checks behind a certified transfer: local spans, stick alignment, fan-in and
    volume (`certify_dense_subrange_transfer` of `torch_spyre/_inductor/core_mapping.py`). */
module Certify {
  import opened Arith
  import opened Radix
  import opened Wrappers
  import opened DenseLayout
  import opened DensePartition
  import opened Transfer

  function Pred(widths: seq<nat>): (last: seq<int>)
    ensures |last| == |widths| && forall i :: 0 <= i < |widths| ==> last[i] == widths[i] as int - 1
  {
    seq(|widths|, i requires 0 <= i < |widths| => widths[i] as int - 1)
  }

  /** The fragment starts on a stick and its last element stays in the reservation. */
  predicate Fits(offset: int, widths: seq<nat>, strides: seq<int>, span: int, bytes: nat)
    requires |widths| == |strides|
  {
    0 <= offset && offset % STICK_BYTES == 0 && offset + Dot(Pred(widths), strides) + bytes <= span
  }

  function Span(shape: seq<nat>, bytes: nat): nat {
    Prod(shape) * bytes
  }

  predicate FitsAt(g: Geometry, s: int, d: int)
    requires Placed(g) && 0 <= s < |g.src.rows| && 0 <= d < |g.dst.rows| && MeetsAt(g, s, d)
  {
    var f := FragmentOf(g, s, d);
    && Fits(f.srcOffset, f.extent, f.srcStrides, Span(g.src.shape, g.bytes), g.bytes)
    && Fits(f.dstOffset, f.extent, f.dstStrides, Span(g.dst.shape, g.bytes), g.bytes)
  }

  predicate PieceFits(g: Geometry, s: int, d: int)
    requires Placed(g) && 0 <= s < |g.src.rows| && 0 <= d < |g.dst.rows|
  {
    MeetsAt(g, s, d) ==> FitsAt(g, s, d)
  }

  // --- Offsets, alignment and spans are implied ---

  lemma SideFits(start: seq<int>, base: seq<int>, widths: seq<nat>, shape: seq<nat>, bytes: nat)
    requires 0 < |start| == |base| == |widths| == |shape|
    requires forall i :: 0 <= i < |start| ==> 0 < widths[i] && base[i] <= start[i] && start[i] + widths[i] <= base[i] + shape[i]
    requires start[|start| - 1] == base[|start| - 1] && shape[|start| - 1] * bytes == STICK_BYTES
    ensures Fits(Dot(Minus(start, base), Strides(shape, bytes)), widths, Strides(shape, bytes), Span(shape, bytes), bytes)
  {
    var q, last := Minus(start, base), Pred(widths);
    DenseBelow(q, shape);
    DotIsDense(q, shape, bytes);
    MulMono(0, Dense(q, shape), bytes);
    StickAligned(q, shape, bytes, STICK_BYTES);
    var end := Plus(q, last);
    DotPlus(q, last, Strides(shape, bytes));
    DenseBelow(end, shape);
    DotIsDense(end, shape, bytes);
    MulMono(Dense(end, shape) + 1, Prod(shape), bytes);
    assert (Dense(end, shape) + 1) * bytes == Dense(end, shape) * bytes + bytes;
  }

  /** A stick axis is never cut, so every slice starts on it at zero. */
  lemma StickStart(slots: seq<int>, splits: seq<nat>, shape: seq<nat>)
    requires 0 < |slots| == |splits| == |shape| && Below(slots, splits) && splits[|slots| - 1] == 1
    ensures Scale(slots, shape)[|slots| - 1] == 0
  {
    ScaleAt(slots, shape);
    assert slots[|slots| - 1] == 0;
  }

  /** Both slices start on the stick axis at zero and hold whole sticks. */
  ghost predicate OnSticks(g: Geometry, s: int, d: int)
    requires Placed(g) && 0 <= s < |g.src.rows| && 0 <= d < |g.dst.rows|
  {
    var n := |g.origin| - 1;
    && 0 <= n && SrcStart(g, s)[n] == DstStart(g, d)[n]
    && g.src.shape[n] * g.bytes == STICK_BYTES && g.dst.shape[n] * g.bytes == STICK_BYTES
  }

  lemma AlwaysOnSticks(g: Geometry, parent: seq<nat>, extent: seq<nat>, s: int, d: int)
    requires Sound(g, parent, extent) && Placed(g) && 0 <= s < |g.src.rows| && 0 <= d < |g.dst.rows|
    ensures OnSticks(g, s, d)
  {
    StickStart(g.src.rows[s], g.src.splits, g.src.shape);
    StickStart(g.dst.rows[d], g.dst.splits, g.dst.shape);
    SliceSticks(g, parent, extent);
  }

  lemma SticksFit(g: Geometry, s: int, d: int)
    requires Placed(g) && 0 <= s < |g.src.rows| && 0 <= d < |g.dst.rows| && MeetsAt(g, s, d) && OnSticks(g, s, d)
    ensures FitsAt(g, s, d)
  {
    var a, b, f := SrcStart(g, s), DstStart(g, d), FragmentOf(g, s, d);
    SideFits(f.start, a, f.extent, g.src.shape, g.bytes);
    SideFits(f.start, b, f.extent, g.dst.shape, g.bytes);
  }

  lemma PieceAlwaysFits(g: Geometry, parent: seq<nat>, extent: seq<nat>, s: int, d: int)
    requires Sound(g, parent, extent) && Placed(g) && 0 <= s < |g.src.rows| && 0 <= d < |g.dst.rows|
    ensures PieceFits(g, s, d)
  {
    if MeetsAt(g, s, d) {
      AlwaysOnSticks(g, parent, extent, s, d);
      SticksFit(g, s, d);
    }
  }

  lemma SliceSticks(g: Geometry, parent: seq<nat>, extent: seq<nat>)
    requires Sound(g, parent, extent)
    ensures var n := |parent| - 1;
            g.src.shape[n] * g.bytes == STICK_BYTES && g.dst.shape[n] * g.bytes == STICK_BYTES
  {
    var n := |parent| - 1;
    assert g.src.splits[n] * g.src.shape[n] == parent[n] && g.dst.splits[n] * g.dst.shape[n] == extent[n];
  }

  // --- The volume is implied ---

  function Volume(fragments: seq<Fragment>): nat {
    if fragments == [] then 0
    else Volume(fragments[..|fragments| - 1]) + Prod(fragments[|fragments| - 1].extent)
  }

  /** The number of elements that source s sends to destination d. */
  ghost function Steps(g: Geometry, s: int, d: int): nat
    requires Placed(g) && 0 <= s < |g.src.rows| && 0 <= d < |g.dst.rows|
  {
    if MeetsAt(g, s, d) then Prod(FragmentOf(g, s, d).extent) else 0
  }

  /** Point number v of destination d, in the parent. */
  ghost function PointAt(g: Geometry, d: int, v: int): (y: seq<int>)
    requires Placed(g) && 0 <= d < |g.dst.rows|
    ensures |y| == |g.origin|
  {
    Plus(DstStart(g, d), Digits(v, g.dst.shape))
  }

  /** The points of destination d that source s owns. */
  ghost function Share(g: Geometry, s: int, d: int): set<int>
    requires Placed(g) && 0 <= s < |g.src.rows| && 0 <= d < |g.dst.rows|
  {
    set v | 0 <= v < Prod(g.dst.shape) && InSlice(PointAt(g, d, v), SrcStart(g, s), g.src.shape)
  }

  lemma PointInDest(g: Geometry, d: int, v: int)
    requires Placed(g) && 0 <= d < |g.dst.rows|
    ensures InSlice(PointAt(g, d, v), DstStart(g, d), g.dst.shape)
  {
    DigitsBelow(v, g.dst.shape);
  }

  /** The number, among the destination's points, of step k of a fragment. */
  ghost function Target(g: Geometry, s: int, d: int, k: int): int
    requires Placed(g) && 0 <= s < |g.src.rows| && 0 <= d < |g.dst.rows| && MeetsAt(g, s, d)
  {
    var f := FragmentOf(g, s, d);
    Compose(Minus(Plus(f.start, Digits(k, f.extent)), DstStart(g, d)), g.dst.shape)
  }

  lemma TargetPoint(g: Geometry, s: int, d: int, k: int)
    requires Placed(g) && 0 <= s < |g.src.rows| && 0 <= d < |g.dst.rows| && MeetsAt(g, s, d)
    ensures Target(g, s, d, k) in Share(g, s, d)
    ensures var f := FragmentOf(g, s, d);
            PointAt(g, d, Target(g, s, d, k)) == Plus(f.start, Digits(k, f.extent))
  {
    var f, b := FragmentOf(g, s, d), DstStart(g, d);
    DigitsBelow(k, f.extent);
    StepShared(g, s, d, Digits(k, f.extent));
    var y := Plus(f.start, Digits(k, f.extent));
    assert Below(Minus(y, b), g.dst.shape);
    DigitsCompose(Minus(y, b), g.dst.shape);
    PlusMinus(b, y);
  }

  lemma TargetOf(g: Geometry, s: int, d: int, v: int) returns (k: int)
    requires Placed(g) && 0 <= s < |g.src.rows| && 0 <= d < |g.dst.rows| && v in Share(g, s, d)
    ensures MeetsAt(g, s, d) && 0 <= k < Prod(FragmentOf(g, s, d).extent) && Target(g, s, d, k) == v
  {
    var y := PointAt(g, d, v);
    PointInDest(g, d, v);
    SharedStep(g, s, d, y);
    var f := FragmentOf(g, s, d);
    var p := Minus(y, f.start);
    DigitsCompose(p, f.extent);
    k := Compose(p, f.extent);
    PlusMinus(f.start, y);
    PlusMinus(DstStart(g, d), Digits(v, g.dst.shape));
    ComposeDigits(v, g.dst.shape);
  }

  lemma TargetInjective(g: Geometry, s: int, d: int, k: int, k': int)
    requires Placed(g) && 0 <= s < |g.src.rows| && 0 <= d < |g.dst.rows| && MeetsAt(g, s, d)
    requires 0 <= k < Prod(FragmentOf(g, s, d).extent) && 0 <= k' < Prod(FragmentOf(g, s, d).extent)
    requires Target(g, s, d, k) == Target(g, s, d, k')
    ensures k == k'
  {
    var f := FragmentOf(g, s, d);
    TargetPoint(g, s, d, k);
    TargetPoint(g, s, d, k');
    PlusMinus(f.start, Digits(k, f.extent));
    PlusMinus(f.start, Digits(k', f.extent));
    DigitsInjective(k, k', f.extent);
  }

  /** A fragment has as many steps as points its source owns in the destination. */
  lemma ShareSize(g: Geometry, s: int, d: int)
    requires Placed(g) && 0 <= s < |g.src.rows| && 0 <= d < |g.dst.rows|
    ensures |Share(g, s, d)| == Steps(g, s, d)
  {
    if MeetsAt(g, s, d) {
      var n := Prod(FragmentOf(g, s, d).extent);
      var targets := seq(n, k requires 0 <= k < n => Target(g, s, d, k));
      forall i, j | 0 <= i < j < n ensures targets[i] != targets[j] {
        if targets[i] == targets[j] {
          TargetInjective(g, s, d, i, j);
        }
      }
      DistinctSize(targets);
      forall k | 0 <= k < n ensures targets[k] in Share(g, s, d) {
        TargetPoint(g, s, d, k);
      }
      forall v | v in Share(g, s, d) ensures v in targets {
        var k := TargetOf(g, s, d, v);
        assert targets[k] == v;
      }
      assert (set v | v in targets) == Share(g, s, d);
    } else {
      NoShare(g, s, d);
    }
  }

  lemma NoShare(g: Geometry, s: int, d: int)
    requires Placed(g) && 0 <= s < |g.src.rows| && 0 <= d < |g.dst.rows| && !MeetsAt(g, s, d)
    ensures Share(g, s, d) == {}
  {
    forall v | 0 <= v < Prod(g.dst.shape) ensures v !in Share(g, s, d) {
      PointInDest(g, d, v);
      MeetsShares(SrcStart(g, s), g.src.shape, DstStart(g, d), g.dst.shape);
    }
  }

  /** The points of destination d owned by the first n sources. */
  ghost function Shared(g: Geometry, d: int, n: nat): set<int>
    requires Placed(g) && 0 <= d < |g.dst.rows| && n <= |g.src.rows|
  {
    if n == 0 then {} else Shared(g, d, n - 1) + Share(g, n - 1, d)
  }

  lemma {:induction false} SharedIff(g: Geometry, d: int, n: nat, v: int, s: int)
    requires Placed(g) && 0 <= d < |g.dst.rows| && n <= |g.src.rows|
    requires forall s' :: 0 <= s' < |g.src.rows| ==> (v in Share(g, s', d) <==> s' == s)
    ensures v in Shared(g, d, n) <==> 0 <= s < n
    decreases n
  {
    if n > 0 {
      SharedIff(g, d, n - 1, v, s);
    }
  }

  lemma PointOwner(g: Geometry, parent: seq<nat>, extent: seq<nat>, d: int, v: int) returns (s: int)
    requires Sound(g, parent, extent) && Placed(g) && 0 <= d < |g.dst.rows| && 0 <= v < Prod(g.dst.shape)
    ensures 0 <= s < |g.src.rows|
    ensures forall s' :: 0 <= s' < |g.src.rows| ==> (v in Share(g, s', d) <==> s' == s)
  {
    PointInDest(g, d, v);
    DestInParent(g, parent, extent, d, PointAt(g, d, v));
    s := SourceOwner(g.src, parent, PointAt(g, d, v));
  }

  lemma {:induction false} SharedBelow(g: Geometry, d: int, n: nat, v: int)
    requires Placed(g) && 0 <= d < |g.dst.rows| && n <= |g.src.rows| && v in Shared(g, d, n)
    ensures 0 <= v < Prod(g.dst.shape)
    decreases n
  {
    if v in Shared(g, d, n - 1) {
      SharedBelow(g, d, n - 1, v);
    }
  }

  lemma ShareNew(g: Geometry, parent: seq<nat>, extent: seq<nat>, d: int, n: nat)
    requires Sound(g, parent, extent) && Placed(g) && 0 <= d < |g.dst.rows| && n < |g.src.rows|
    ensures Shared(g, d, n) !! Share(g, n, d)
  {
    forall v | v in Share(g, n, d) ensures v !in Shared(g, d, n) {
      var s := PointOwner(g, parent, extent, d, v);
      SharedIff(g, d, n, v, s);
    }
  }

  lemma AllShared(g: Geometry, parent: seq<nat>, extent: seq<nat>, d: int)
    requires Sound(g, parent, extent) && Placed(g) && 0 <= d < |g.dst.rows|
    ensures Shared(g, d, |g.src.rows|) == Range(Prod(g.dst.shape))
  {
    forall v ensures v in Shared(g, d, |g.src.rows|) <==> v in Range(Prod(g.dst.shape)) {
      if 0 <= v < Prod(g.dst.shape) {
        var s := PointOwner(g, parent, extent, d, v);
        SharedIff(g, d, |g.src.rows|, v, s);
      } else if v in Shared(g, d, |g.src.rows|) {
        SharedBelow(g, d, |g.src.rows|, v);
      }
    }
  }

  ghost function TotalSteps(g: Geometry, d: int, n: nat): nat
    requires Placed(g) && 0 <= d < |g.dst.rows| && n <= |g.src.rows|
  {
    if n == 0 then 0 else TotalSteps(g, d, n - 1) + Steps(g, n - 1, d)
  }

  lemma {:induction false} IncomingVolume(g: Geometry, d: int, n: nat)
    requires Placed(g) && 0 <= d < |g.dst.rows| && n <= |g.src.rows|
    ensures Volume(Incoming(g, d, n)) == TotalSteps(g, d, n)
    decreases n
  {
    if n > 0 {
      IncomingVolume(g, d, n - 1);
      VolumePiece(g, d, n);
    }
  }

  lemma OneMoreShare(g: Geometry, parent: seq<nat>, extent: seq<nat>, d: int, n: nat)
    requires Sound(g, parent, extent) && Placed(g) && 0 <= d < |g.dst.rows| && 0 < n <= |g.src.rows|
    ensures |Shared(g, d, n)| == |Shared(g, d, n - 1)| + |Share(g, n - 1, d)|
  {
    ShareNew(g, parent, extent, d, n - 1);
    DisjointSize(Shared(g, d, n - 1), Share(g, n - 1, d));
  }

  lemma {:induction false} SharedSize(g: Geometry, parent: seq<nat>, extent: seq<nat>, d: int, n: nat)
    requires Sound(g, parent, extent) && Placed(g) && 0 <= d < |g.dst.rows| && n <= |g.src.rows|
    ensures |Shared(g, d, n)| == TotalSteps(g, d, n)
    decreases n
  {
    if n > 0 {
      SharedSize(g, parent, extent, d, n - 1);
      OneMoreShare(g, parent, extent, d, n);
      ShareSize(g, n - 1, d);
    }
  }

  lemma VolumePiece(g: Geometry, d: int, n: nat)
    requires Placed(g) && 0 <= d < |g.dst.rows| && 0 < n <= |g.src.rows|
    ensures Volume(Incoming(g, d, n))
         == Volume(Incoming(g, d, n - 1)) + Steps(g, n - 1, d)
  {
    var list, list' := Incoming(g, d, n - 1), Incoming(g, d, n);
    if MeetsAt(g, n - 1, d) {
      assert list' == list + [FragmentOf(g, n - 1, d)];
      assert list'[..|list'| - 1] == list;
    } else {
      assert list' == list;
    }
  }

  lemma VolumeImplied(g: Geometry, parent: seq<nat>, extent: seq<nat>, d: int)
    requires Sound(g, parent, extent) && Placed(g) && 0 <= d < |g.dst.rows|
    ensures Volume(Incoming(g, d, |g.src.rows|)) == Prod(g.dst.shape)
  {
    IncomingVolume(g, d, |g.src.rows|);
    SharedSize(g, parent, extent, d, |g.src.rows|);
    AllShared(g, parent, extent, d);
  }

  // --- Fan-in ---

  /** Source s owns some point of destination d's slice. */
  ghost predicate Feeds(g: Geometry, s: int, d: int)
    requires Placed(g) && 0 <= s < |g.src.rows| && 0 <= d < |g.dst.rows|
  {
    exists y :: InSlice(y, SrcStart(g, s), g.src.shape) && InSlice(y, DstStart(g, d), g.dst.shape)
  }

  /** How many of the first n sources feed destination d. */
  ghost function Feeders(g: Geometry, d: int, n: nat): nat
    requires Placed(g) && 0 <= d < |g.dst.rows| && n <= |g.src.rows|
  {
    if n == 0 then 0 else Feeders(g, d, n - 1) + if Feeds(g, n - 1, d) then 1 else 0
  }

  lemma PieceCount(g: Geometry, s: int, d: int)
    requires Placed(g) && 0 <= s < |g.src.rows| && 0 <= d < |g.dst.rows|
    ensures |Piece(g, s, d)| == if Feeds(g, s, d) then 1 else 0
  {
    MeetsShares(SrcStart(g, s), g.src.shape, DstStart(g, d), g.dst.shape);
  }

  lemma {:induction false} FanIn(g: Geometry, d: int, n: nat)
    requires Placed(g) && 0 <= d < |g.dst.rows| && n <= |g.src.rows|
    ensures |Incoming(g, d, n)| == Feeders(g, d, n)
    decreases n
  {
    if n > 0 {
      FanIn(g, d, n - 1);
      PieceCount(g, n - 1, d);
    }
  }

  lemma SomeFeeder(g: Geometry, parent: seq<nat>, extent: seq<nat>, d: int)
    requires Sound(g, parent, extent) && Placed(g) && 0 <= d < |g.dst.rows|
    ensures 0 < |Incoming(g, d, |g.src.rows|)|
  {
    ProdPositive(g.dst.shape);
    var s := PointOwner(g, parent, extent, d, 0);
    assert 0 in Share(g, s, d);
    var k := TargetOf(g, s, d, 0);
    IncomingHas(g, d, |g.src.rows|, s);
  }

  // --- The certificate ---

  /** The span checks of the first n sources. */
  ghost predicate AllFit(g: Geometry, d: int, n: nat)
    requires Placed(g) && 0 <= d < |g.dst.rows| && n <= |g.src.rows|
  {
    n == 0 || (AllFit(g, d, n - 1) && PieceFits(g, n - 1, d))
  }

  lemma {:induction false} AllFitMono(g: Geometry, d: int, n: nat, m: nat)
    requires Placed(g) && 0 <= d < |g.dst.rows| && n <= m <= |g.src.rows| && AllFit(g, d, m)
    ensures AllFit(g, d, n)
    decreases m
  {
    if n < m {
      AllFitMono(g, d, n, m - 1);
    }
  }

  lemma {:induction false} EachFits(g: Geometry, d: int, n: nat)
    requires Placed(g) && 0 <= d < |g.dst.rows| && n <= |g.src.rows|
    requires forall s :: 0 <= s < |g.src.rows| ==> PieceFits(g, s, d)
    ensures AllFit(g, d, n)
    decreases n
  {
    if n > 0 {
      EachFits(g, d, n - 1);
    }
  }

  lemma AllAlwaysFit(g: Geometry, parent: seq<nat>, extent: seq<nat>, d: int)
    requires Sound(g, parent, extent) && Placed(g) && 0 <= d < |g.dst.rows|
    ensures AllFit(g, d, |g.src.rows|)
  {
    forall s | 0 <= s < |g.src.rows| ensures PieceFits(g, s, d) {
      PieceAlwaysFits(g, parent, extent, s, d);
    }
    EachFits(g, d, |g.src.rows|);
  }

  /** What the source checks about one destination. */
  ghost predicate DestAccepted(g: Geometry, d: int)
    requires Placed(g) && 0 <= d < |g.dst.rows|
  {
    var incoming := Incoming(g, d, |g.src.rows|);
    && AllFit(g, d, |g.src.rows|)
    && 0 < |incoming| <= MAX_SHUFFLE_FANIN
    && Volume(incoming) == Prod(g.dst.shape)
  }

  /** Of those checks only the fan-in limit can fail. */
  lemma OnlyFanIn(g: Geometry, parent: seq<nat>, extent: seq<nat>, d: int)
    requires Sound(g, parent, extent) && Placed(g) && 0 <= d < |g.dst.rows|
    ensures DestAccepted(g, d) <==> FanInAt(g, d)
  {
    AllAlwaysFit(g, parent, extent, d);
    SomeFeeder(g, parent, extent, d);
    FanIn(g, d, |g.src.rows|);
    VolumeImplied(g, parent, extent, d);
  }

  method AddSource(g: Geometry, s: int, d: int, incoming: seq<Fragment>) returns (r: Result<seq<Fragment>>)
    requires Placed(g) && 0 <= s < |g.src.rows| && 0 <= d < |g.dst.rows|
    ensures r.Ok? <==> PieceFits(g, s, d)
    ensures r.Ok? ==> r.value == incoming + Piece(g, s, d)
  {
    if !MeetsAt(g, s, d) {
      return Ok(incoming);
    }
    r := if FitsAt(g, s, d) then Ok(incoming + [FragmentOf(g, s, d)]) else Err;
  }

  method CollectIncoming(g: Geometry, d: int) returns (r: Result<seq<Fragment>>)
    requires Placed(g) && 0 <= d < |g.dst.rows|
    ensures r.Ok? <==> AllFit(g, d, |g.src.rows|)
    ensures r.Ok? ==> r.value == Incoming(g, d, |g.src.rows|)
  {
    var incoming := [];
    for s := 0 to |g.src.rows|
      invariant incoming == Incoming(g, d, s) && AllFit(g, d, s)
    {
      var next := AddSource(g, s, d, incoming);
      if next.Err? {
        if AllFit(g, d, |g.src.rows|) {
          AllFitMono(g, d, s + 1, |g.src.rows|);
        }
        return Err;
      }
      incoming := next.value;
    }
    r := Ok(incoming);
  }

  /** The checks of the first m destinations. */
  ghost predicate AllAccepted(g: Geometry, m: nat)
    requires Placed(g) && m <= |g.dst.rows|
  {
    m == 0 || (AllAccepted(g, m - 1) && DestAccepted(g, m - 1))
  }

  lemma {:induction false} AllAcceptedMono(g: Geometry, n: nat, m: nat)
    requires Placed(g) && n <= m <= |g.dst.rows| && AllAccepted(g, m)
    ensures AllAccepted(g, n)
    decreases m
  {
    if n < m {
      AllAcceptedMono(g, n, m - 1);
    }
  }

  method CollectFragments(g: Geometry) returns (r: Result<seq<Fragment>>)
    requires Placed(g)
    ensures r.Ok? <==> AllAccepted(g, |g.dst.rows|)
    ensures r.Ok? ==> r.value == AllFragments(g, |g.dst.rows|)
  {
    var fragments := [];
    for d := 0 to |g.dst.rows|
      invariant fragments == AllFragments(g, d) && AllAccepted(g, d)
    {
      var incoming := CollectDestination(g, d);
      if incoming.Err? {
        if AllAccepted(g, |g.dst.rows|) {
          AllAcceptedMono(g, d + 1, |g.dst.rows|);
        }
        return Err;
      }
      fragments := fragments + incoming.value;
    }
    r := Ok(fragments);
  }

  /** The fragments of one destination, if its checks pass. */
  method CollectDestination(g: Geometry, d: int) returns (r: Result<seq<Fragment>>)
    requires Placed(g) && 0 <= d < |g.dst.rows|
    ensures r.Ok? <==> DestAccepted(g, d)
    ensures r.Ok? ==> r.value == Incoming(g, d, |g.src.rows|)
  {
    r := CollectIncoming(g, d);
    if r.Ok? {
      if |r.value| == 0 || |r.value| > MAX_SHUFFLE_FANIN || Volume(r.value) != Prod(g.dst.shape) {
        return Err;
      }
    }
  }

  /** No destination has more sources than the shuffle can take. */
  ghost predicate FanInAllowed(g: Geometry)
    requires Placed(g)
  {
    forall d :: 0 <= d < |g.dst.rows| ==> FanInAt(g, d)
  }

  ghost predicate FanInAt(g: Geometry, d: int)
    requires Placed(g) && 0 <= d < |g.dst.rows|
  {
    Feeders(g, d, |g.src.rows|) <= MAX_SHUFFLE_FANIN
  }

  ghost predicate FanInUpTo(g: Geometry, m: nat)
    requires Placed(g) && m <= |g.dst.rows|
  {
    m == 0 || (FanInUpTo(g, m - 1) && FanInAt(g, m - 1))
  }

  lemma {:induction false} FanInEach(g: Geometry, m: nat)
    requires Placed(g) && m <= |g.dst.rows|
    ensures FanInUpTo(g, m) <==> forall d :: 0 <= d < m ==> FanInAt(g, d)
    decreases m
  {
    if m > 0 {
      FanInEach(g, m - 1);
    }
  }

  lemma {:induction false} AcceptedUpTo(g: Geometry, parent: seq<nat>, extent: seq<nat>, m: nat)
    requires Sound(g, parent, extent) && Placed(g) && m <= |g.dst.rows|
    ensures AllAccepted(g, m) <==> FanInUpTo(g, m)
    decreases m
  {
    if m > 0 {
      AcceptedUpTo(g, parent, extent, m - 1);
      OnlyFanIn(g, parent, extent, m - 1);
    }
  }

  lemma AcceptedIffFanIn(g: Geometry, parent: seq<nat>, extent: seq<nat>)
    requires Sound(g, parent, extent) && Placed(g)
    ensures AllAccepted(g, |g.dst.rows|) <==> FanInAllowed(g)
  {
    AcceptedUpTo(g, parent, extent, |g.dst.rows|);
    FanInEach(g, |g.dst.rows|);
  }

  ghost predicate ValidInputs(parent: seq<int>, origin: seq<int>, extent: seq<int>, sourceSplits: map<int, int>,
                              destSplits: map<int, int>, sourceMap: Owners, destMap: Owners, bytes: int)
  {
    && ValidSubrange(parent, origin, extent, bytes)
    && ValidPartition(parent, sourceSplits, sourceMap, false)
    && ValidPartition(extent, destSplits, destMap, true)
  }

  ghost function GeometryOf(parent: seq<int>, origin: seq<int>, extent: seq<int>, sourceSplits: map<int, int>,
                            destSplits: map<int, int>, sourceMap: Owners, destMap: Owners, bytes: int): Geometry
    requires ValidInputs(parent, origin, extent, sourceSplits, destSplits, sourceMap, destMap, bytes)
  {
    Geometry(origin, bytes, PartitionOf(parent, sourceSplits, sourceMap), PartitionOf(extent, destSplits, destMap))
  }

  lemma PartitionCut(shape: seq<nat>, splits: map<int, int>, owners: Owners, replicas: bool)
    requires 0 < |shape| && AllPositive(shape) && ValidPartition(shape, splits, owners, replicas)
    ensures Cut(PartitionOf(shape, splits, owners), shape)
    ensures !replicas ==> OneHolder(PartitionOf(shape, splits, owners))
  {
    var full := GetAll(splits, |shape|, 1);
    SlicesMultiply(shape, full);
    ValidCores(full, owners, replicas);
    ValidRowsBelow(full, owners);
    if !replicas {
      UniqueHolders(full, owners);
    }
  }

  lemma SlicesMultiply(shape: seq<nat>, splits: seq<nat>)
    requires 0 < |shape| && AllPositive(shape) && Splits(shape, splits)
    ensures AllPositive(SliceShape(shape, splits))
    ensures forall i :: 0 <= i < |shape| ==> splits[i] * SliceShape(shape, splits)[i] == shape[i]
  {
    forall i | 0 <= i < |shape| ensures 0 < shape[i] / splits[i] && splits[i] * (shape[i] / splits[i]) == shape[i] {
      ExactDiv(shape[i], splits[i]);
    }
  }

  lemma UniqueHolders(splits: seq<nat>, owners: Owners)
    requires ValidOwners(splits, owners, false)
    ensures forall t :: Below(t, splits) ==> |Holders(Rows(owners, |splits|, |owners|), t)| == 1
  {
  }

  lemma InputsSound(parent: seq<int>, origin: seq<int>, extent: seq<int>, sourceSplits: map<int, int>,
                    destSplits: map<int, int>, sourceMap: Owners, destMap: Owners, bytes: int)
    requires ValidInputs(parent, origin, extent, sourceSplits, destSplits, sourceMap, destMap, bytes)
    ensures Sound(GeometryOf(parent, origin, extent, sourceSplits, destSplits, sourceMap, destMap, bytes), parent, extent)
  {
    PartitionCut(parent, sourceSplits, sourceMap, false);
    PartitionCut(extent, destSplits, destMap, true);
  }

  /** The shape of an issued certificate. */
  ghost predicate Certified(c: Certificate) {
    && Sound(c.at, c.parent, c.extent) && Placed(c.at)
    && c.fragments == AllFragments(c.at, |c.at.dst.rows|)
    && c.srcSpan == Span(c.at.src.shape, c.at.bytes) && c.dstSpan == Span(c.at.dst.shape, c.at.bytes)
  }

  /** A certificate is issued exactly for valid inputs with at most eight sources per
      destination, and its fragments move every element once, to the right place. */
  method CertifyDenseSubrangeTransfer(parent: seq<int>, origin: seq<int>, extent: seq<int>, sourceSplits: map<int, int>,
                                      destSplits: map<int, int>, sourceMap: Owners, destMap: Owners, bytes: int)
    returns (r: Result<Certificate>)
    ensures r.Ok? <==>
      && ValidInputs(parent, origin, extent, sourceSplits, destSplits, sourceMap, destMap, bytes)
      && var g := GeometryOf(parent, origin, extent, sourceSplits, destSplits, sourceMap, destMap, bytes);
         Placed(g) && FanInAllowed(g)
    ensures r.Ok? ==>
              && Certified(r.value) && r.value.parent == parent && r.value.extent == extent
              && r.value.at == GeometryOf(parent, origin, extent, sourceSplits, destSplits, sourceMap, destMap, bytes)
              && CopiesExactly(r.value.at, r.value.fragments)
  {
    if !ValidSubrange(parent, origin, extent, bytes) {
      return Err;
    }
    var src := DenseSubrangePartition(parent, sourceSplits, sourceMap, false);
    if src.Err? {
      return Err;
    }
    var dst := DenseSubrangePartition(extent, destSplits, destMap, true);
    if dst.Err? {
      return Err;
    }
    InputsSound(parent, origin, extent, sourceSplits, destSplits, sourceMap, destMap, bytes);
    r := CertifyGeometry(parent, extent, Geometry(origin, bytes, src.value, dst.value));
  }

  method CertifyGeometry(parent: seq<nat>, extent: seq<nat>, g: Geometry) returns (r: Result<Certificate>)
    requires Sound(g, parent, extent)
    ensures Placed(g) && (r.Ok? <==> FanInAllowed(g))
    ensures r.Ok? ==> Certified(r.value) && r.value.parent == parent && r.value.extent == extent && r.value.at == g
    ensures r.Ok? ==> CopiesExactly(g, r.value.fragments)
  {
    SoundPlaced(g, parent, extent);
    AcceptedIffFanIn(g, parent, extent);
    TransferCopiesExactly(g, parent, extent);
    var fragments := CollectFragments(g);
    if fragments.Err? {
      return Err;
    }
    r := Ok(Certificate(parent, extent, g, Span(g.src.shape, g.bytes), Span(g.dst.shape, g.bytes), fragments.value));
  }
}
