/** The contiguous stretch of a dense tensor one core owns (`_per_core_run` of
    `torch_spyre/_inductor/cost_features.py`). */
module ContiguousRun {
  import opened Arith
  import opened Radix
  import opened Wrappers

  /** One loop axis of a read: address stride, trip count, and into how many equal
      parts the cores divide it. */
  datatype Axis = Axis(stride: int, size: nat, split: nat)

  predicate ValidAxis(a: Axis) {
    0 < a.size && 0 < a.split && a.size % a.split == 0
  }

  predicate Valid(axes: seq<Axis>) {
    forall i :: 0 <= i < |axes| ==> ValidAxis(axes[i])
  }

  function Sizes(axes: seq<Axis>): (s: seq<nat>)
    ensures |s| == |axes| && forall i :: 0 <= i < |axes| ==> s[i] == axes[i].size
  {
    seq(|axes|, i requires 0 <= i < |axes| => axes[i].size)
  }

  predicate Whole(axes: seq<Axis>) {
    forall i :: 0 <= i < |axes| ==> axes[i].split == 1
  }

  /** The unsplit inner axes, times one core's share of the first split axis. */
  function Run(axes: seq<Axis>): nat
    requires Valid(axes)
  {
    if axes == [] then 1
    else if axes[0].split > 1 then axes[0].size / axes[0].split
    else axes[0].size * Run(axes[1..])
  }

  // --- The positions one core owns ---

  /** One slot per axis. */
  predicate ValidSlots(axes: seq<Axis>, slots: seq<int>) {
    |slots| == |axes| && forall i :: 0 <= i < |axes| ==> 0 <= slots[i] < axes[i].split
  }

  /** Position d on an axis lies in the part that the slot names. */
  predicate InPart(a: Axis, slot: int, d: int)
    requires ValidAxis(a)
  {
    slot * (a.size / a.split) <= d < (slot + 1) * (a.size / a.split)
  }

  predicate AllInPart(axes: seq<Axis>, slots: seq<int>, digits: seq<int>)
    requires Valid(axes) && |slots| == |axes| == |digits|
  {
    forall i :: 0 <= i < |axes| ==> InPart(axes[i], slots[i], digits[i])
  }

  /** Position x, counted in nesting order, belongs to the core with these slots. */
  ghost predicate Owned(axes: seq<Axis>, slots: seq<int>, x: int)
    requires Valid(axes) && |slots| == |axes|
  {
    && 0 <= x < Prod(Sizes(axes))
    && AllInPart(axes, slots, Digits(x, Sizes(axes)))
  }

  /** Positions a to a + n - 1 are owned and the stretch cannot be extended. */
  ghost predicate Maximal(axes: seq<Axis>, slots: seq<int>, a: int, n: int)
    requires Valid(axes) && |slots| == |axes|
  {
    && 0 < n && (forall y :: a <= y < a + n ==> Owned(axes, slots, y))
    && !Owned(axes, slots, a - 1) && !Owned(axes, slots, a + n)
  }

  /** The innermost axis is consumed first: an unsplit one always, a split one in part. */
  lemma OwnedStep(axes: seq<Axis>, slots: seq<int>, x: int)
    requires Valid(axes) && |slots| == |axes| > 0
    ensures Owned(axes, slots, x) <==>
            && 0 <= x && InPart(axes[0], slots[0], x % axes[0].size)
            && Owned(axes[1..], slots[1..], x / axes[0].size)
  {
    var sizes, n := Sizes(axes), axes[0].size;
    assert sizes[1..] == Sizes(axes[1..]) && sizes[0] == n;
    var rest := Digits(x / n, sizes[1..]);
    assert Digits(x, sizes) == [x % n] + rest;
    if 0 <= x {
      DivNonNeg(x, n);
      DivModEq(x, n);
      BelowProduct(x, n, Prod(sizes[1..]));
    } else {
      assert !Owned(axes, slots, x);
    }
    PartsStep(axes, slots, [x % n] + rest);
  }

  lemma PartsStep(axes: seq<Axis>, slots: seq<int>, digits: seq<int>)
    requires Valid(axes) && |slots| == |axes| == |digits| > 0
    ensures AllInPart(axes, slots, digits) <==>
            InPart(axes[0], slots[0], digits[0]) && AllInPart(axes[1..], slots[1..], digits[1..])
  {
    if InPart(axes[0], slots[0], digits[0]) && AllInPart(axes[1..], slots[1..], digits[1..]) {
      forall i | 0 <= i < |axes| ensures InPart(axes[i], slots[i], digits[i]) {
        assert i > 0 ==> axes[1..][i - 1] == axes[i] && slots[1..][i - 1] == slots[i] && digits[1..][i - 1] == digits[i];
      }
    }
  }

  lemma BelowProduct(x: int, n: int, m: int)
    requires 0 <= x && 0 < n
    ensures x < n * m <==> x / n < m
  {
    DivModEq(x, n);
    if x / n < m {
      MulMono(x / n + 1, m, n);
    } else {
      MulMono(m, x / n, n);
    }
  }

  /** Everything lies in the only part of an unsplit axis. */
  lemma UnsplitPart(a: Axis, slot: int, x: int)
    requires ValidAxis(a) && a.split == 1 && slot == 0
    ensures InPart(a, slot, x % a.size)
  {
    assert a.size / a.split == a.size;
  }

  /** Just before and just after a part of a split axis, positions fall outside it. */
  lemma PartEnds(a: Axis, slot: int, h: int)
    requires ValidAxis(a) && a.split > 1 && 0 <= slot < a.split
    ensures var w := a.size / a.split;
            && 0 < w && 0 <= slot * w && (slot + 1) * w == slot * w + w <= a.size
            && !InPart(a, slot, (h * a.size + slot * w - 1) % a.size)
            && !InPart(a, slot, (h * a.size + slot * w + w) % a.size)
  {
    var n, w := a.size, a.size / a.split;
    ExactDiv(n, a.split);
    MulMono(0, slot, w);
    MulMono(slot + 1, a.split, w);
    MulMono(2, a.split, w);
    assert (slot + 1) * w == slot * w + w;
    if slot * w > 0 {
      DivModUnique(h * n + slot * w - 1, n, h, slot * w - 1);
    } else {
      assert (h - 1) * n == h * n - n;
      DivModUnique(h * n + slot * w - 1, n, h - 1, n - 1);
    }
    if slot * w + w < n {
      DivModUnique(h * n + slot * w + w, n, h, slot * w + w);
    } else {
      assert (h + 1) * n == h * n + n;
      DivModUnique(h * n + slot * w + w, n, h + 1, 0);
    }
  }

  /** The stretch around an owned position when the innermost axis is split. */
  lemma SplitStretch(axes: seq<Axis>, slots: seq<int>, x: int) returns (a: int)
    requires Valid(axes) && axes != [] && axes[0].split > 1 && ValidSlots(axes, slots) && Owned(axes, slots, x)
    ensures a <= x < a + axes[0].size / axes[0].split && Maximal(axes, slots, a, axes[0].size / axes[0].split)
  {
    var n, w, slot, h := axes[0].size, axes[0].size / axes[0].split, slots[0], x / axes[0].size;
    PartEnds(axes[0], slot, h);
    OwnedStep(axes, slots, x);
    DivModEq(x, n);
    a := h * n + slot * w;
    forall y | a <= y < a + w ensures Owned(axes, slots, y) {
      DivModUnique(y, n, h, y - h * n);
      DivNonNeg(x, n);
      MulMono(0, h, n);
      OwnedStep(axes, slots, y);
    }
    OwnedStep(axes, slots, a - 1);
    OwnedStep(axes, slots, a + w);
  }

  lemma OwnedOver(axes: seq<Axis>, slots: seq<int>, y: int, q: int, rest: int)
    requires Valid(axes) && axes != [] && axes[0].split == 1 && ValidSlots(axes, slots)
    requires y == q * axes[0].size + rest && 0 <= rest < axes[0].size
    ensures Owned(axes, slots, y) <==> Owned(axes[1..], slots[1..], q)
  {
    var n := axes[0].size;
    DivModUnique(y, n, q, rest);
    UnsplitPart(axes[0], slots[0], y);
    OwnedStep(axes, slots, y);
    if 0 <= q {
      MulMono(0, q, n);
    }
  }

  /** When it is not, stretches of the outer axes grow by its whole size. */
  lemma WholeStretch(axes: seq<Axis>, slots: seq<int>, b: int, r: int)
    requires Valid(axes) && axes != [] && axes[0].split == 1 && ValidSlots(axes, slots)
    requires Maximal(axes[1..], slots[1..], b, r)
    ensures Maximal(axes, slots, b * axes[0].size, axes[0].size * r)
  {
    var n := axes[0].size;
    var a, len := b * n, n * r;
    assert (b + r) * n == a + len && (b - 1) * n == a - n;
    MulPositive(n, r);
    forall y | a <= y < a + len ensures Owned(axes, slots, y) {
      DivBounds(y, n, b, b + r);
      DivModEq(y, n);
      OwnedOver(axes, slots, y, y / n, y % n);
    }
    OwnedOver(axes, slots, a - 1, b - 1, n - 1);
    OwnedOver(axes, slots, a + len, b + r, 0);
  }

  lemma StretchHolds(x: int, n: int, b: int, r: int)
    requires 0 < n && b <= x / n < b + r
    ensures b * n <= x < b * n + n * r
  {
    DivModEq(x, n);
    MulMono(b, x / n, n);
    MulMono(x / n + 1, b + r, n);
    assert (b + r) * n == b * n + n * r && (x / n + 1) * n == x / n * n + n;
  }

  /** A nest without axes is a single element. */
  lemma OneElement(x: int)
    ensures Owned([], [], x) <==> x == 0
  {
  }

  /** Every owned position lies in a maximal stretch exactly as long as the run. */
  lemma {:induction false} RunAround(axes: seq<Axis>, slots: seq<int>, x: int) returns (a: int)
    requires Valid(axes) && ValidSlots(axes, slots) && Owned(axes, slots, x)
    ensures a <= x < a + Run(axes) && Maximal(axes, slots, a, Run(axes))
    decreases |axes|
  {
    if axes == [] {
      forall y ensures Owned(axes, slots, y) <==> y == 0 {
        OneElement(y);
      }
      a := 0;
    } else if axes[0].split > 1 {
      a := SplitStretch(axes, slots, x);
    } else {
      OwnedStep(axes, slots, x);
      var b := RunAround(axes[1..], slots[1..], x / axes[0].size);
      WholeStretch(axes, slots, b, Run(axes[1..]));
      StretchHolds(x, axes[0].size, b, Run(axes[1..]));
      a := b * axes[0].size;
    }
  }

  /** The run is the length of every maximal stretch of positions one core owns. */
  lemma RunIsMaximal(axes: seq<Axis>, slots: seq<int>, a: int, n: int)
    requires Valid(axes) && ValidSlots(axes, slots) && Maximal(axes, slots, a, n)
    ensures n == Run(axes)
  {
    var b := RunAround(axes, slots, a);
  }

  // --- The run of a per-core view ---

  /** The largest key below n. */
  function Largest(view: map<int, nat>, n: nat): (r: Option<nat>)
    ensures r.Some? ==> r.value < n && r.value in view
    ensures forall d :: d in view && 0 <= d < n ==> r.Some? && d <= r.value
  {
    if n == 0 then None else if n - 1 in view then Some(n - 1) else Largest(view, n - 1)
  }

  /** Run and bounding split of a view over device dimensions, outermost first. */
  function PerCoreRun(view: map<int, nat>, dims: seq<nat>): (int, int)
    requires forall d :: d in view ==> 0 <= d < |dims| && 0 < view[d]
  {
    var innermost := Largest(view, |dims|);
    if innermost.None? then (Prod(dims), 1)
    else
      var d := innermost.value;
      (dims[d] / view[d] * Prod(dims[d + 1..]), view[d])
  }

  /** The nest as a row-major device tensor and its view. */
  function Dims(axes: seq<Axis>): (dims: seq<nat>)
    ensures |dims| == |axes| && forall i :: 0 <= i < |axes| ==> dims[i] == axes[|axes| - 1 - i].size
  {
    seq(|axes|, i requires 0 <= i < |axes| => axes[|axes| - 1 - i].size)
  }

  function SplitAt(axes: seq<Axis>, d: int): nat
    requires 0 <= d < |axes|
  {
    axes[|axes| - 1 - d].split
  }

  /** A view records the split dimensions. */
  function ViewOf(axes: seq<Axis>): map<int, nat> {
    map d | 0 <= d < |axes| && SplitAt(axes, d) > 1 :: SplitAt(axes, d)
  }

  /** An unsplit innermost axis leaves no trace in the view. */
  lemma SameView(axes: seq<Axis>)
    requires axes != [] && axes[0].split == 1
    ensures ViewOf(axes) == ViewOf(axes[1..])
    ensures Largest(ViewOf(axes), |axes|) == Largest(ViewOf(axes[1..]), |axes| - 1)
    ensures Dims(axes) == Dims(axes[1..]) + [axes[0].size]
  {
    var k, rest := |axes| - 1, axes[1..];
    assert forall d :: 0 <= d < k ==> SplitAt(axes, d) == SplitAt(rest, d);
    assert SplitAt(axes, k) == 1;
  }

  /** It multiplies the run. */
  lemma UnsplitInner(axes: seq<Axis>)
    requires Valid(axes) && axes != [] && axes[0].split == 1
    ensures var (run, split) := PerCoreRun(ViewOf(axes[1..]), Dims(axes[1..]));
            PerCoreRun(ViewOf(axes), Dims(axes)) == (axes[0].size * run, split)
  {
    SameView(axes);
    LongerRun(ViewOf(axes[1..]), Dims(axes[1..]), axes[0].size);
  }

  lemma LongerRun(view: map<int, nat>, dims: seq<nat>, size: nat)
    requires forall d :: d in view ==> 0 <= d < |dims| && 0 < view[d]
    requires Largest(view, |dims| + 1) == Largest(view, |dims|)
    ensures PerCoreRun(view, dims + [size]) == (size * PerCoreRun(view, dims).0, PerCoreRun(view, dims).1)
  {
    if Largest(view, |dims|).None? {
      WholeRun(dims, size);
    } else {
      LongerSplitRun(view, dims, size);
    }
  }

  lemma LongerSplitRun(view: map<int, nat>, dims: seq<nat>, size: nat)
    requires forall d :: d in view ==> 0 <= d < |dims| && 0 < view[d]
    requires Largest(view, |dims| + 1) == Largest(view, |dims|) && Largest(view, |dims|).Some?
    ensures PerCoreRun(view, dims + [size]) == (size * PerCoreRun(view, dims).0, PerCoreRun(view, dims).1)
  {
    var d := Largest(view, |dims|).value;
    InnerRun(dims, size, d, view[d]);
  }

  lemma WholeRun(dims: seq<nat>, size: nat)
    ensures Prod(dims + [size]) == size * Prod(dims)
  {
    ProdConcat(dims, [size]);
    assert Prod([size]) == size;
  }

  lemma InnerRun(dims: seq<nat>, size: nat, d: nat, split: nat)
    requires d < |dims| && 0 < split
    ensures (dims + [size])[d] / split * Prod((dims + [size])[d + 1..]) == size * (dims[d] / split * Prod(dims[d + 1..]))
  {
    assert (dims + [size])[d + 1..] == dims[d + 1..] + [size];
    ProdConcat(dims[d + 1..], [size]);
    assert Prod([size]) == size;
    Reassociate(dims[d] / split, Prod(dims[d + 1..]), size);
  }

  lemma Reassociate(a: int, b: int, c: int)
    ensures a * (b * c) == c * (a * b)
  {
  }

  /** The stride walk and the view agree. */
  lemma {:induction false} WalkIsPerCoreRun(axes: seq<Axis>)
    requires Valid(axes)
    ensures PerCoreRun(ViewOf(axes), Dims(axes)).0 == Run(axes)
    ensures PerCoreRun(ViewOf(axes), Dims(axes)).1 == 1 <==> Whole(axes)
  {
    if axes != [] {
      var k := |axes| - 1;
      if axes[0].split > 1 {
        assert SplitAt(axes, k) == axes[0].split && k in ViewOf(axes) && Dims(axes)[k + 1..] == [];
      } else {
        WalkIsPerCoreRun(axes[1..]);
        UnsplitInner(axes);
      }
    }
  }
}
