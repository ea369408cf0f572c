/** The contiguous stretch of device memory one core reads (`_contiguous_device_run` of
    `torch_spyre/_inductor/cost_features.py`). */
module DeviceRun {
  import opened Arith
  import opened Radix
  import opened Wrappers
  import opened ContiguousRun

  // --- Addresses ---

  /** Where an index tuple is in memory. */
  function Address(axes: seq<Axis>, index: seq<int>): int
    requires |index| == |axes|
  {
    if axes == [] then 0
    else
      var n := |axes| - 1;
      Address(axes[..n], index[..n]) + index[n] * axes[n].stride
  }

  /** The core with these slots reads address x. */
  ghost predicate OwnsAddress(axes: seq<Axis>, slots: seq<int>, x: int)
    requires Valid(axes) && |slots| == |axes|
  {
    exists index :: |index| == |axes| && AllInPart(axes, slots, index) && Address(axes, index) == x
  }

  /** Addresses a to a + n - 1 are read by the core and the stretch cannot be extended. */
  ghost predicate Stretch(axes: seq<Axis>, slots: seq<int>, a: int, n: int)
    requires Valid(axes) && |slots| == |axes|
  {
    && 0 < n && (forall y :: a <= y < a + n ==> OwnsAddress(axes, slots, y))
    && !OwnsAddress(axes, slots, a - 1) && !OwnsAddress(axes, slots, a + n)
  }

  /** The stride of an axis is the volume inside it. */
  predicate DenseAt(axes: seq<Axis>, i: int)
    requires 0 <= i < |axes|
  {
    axes[i].stride == Prod(Sizes(axes[..i]))
  }

  /** The axes nest densely. */
  predicate Dense(axes: seq<Axis>) {
    forall i :: 0 <= i < |axes| ==> DenseAt(axes, i)
  }

  /** How many axes nest densely before the first gap. */
  function DenseLength(axes: seq<Axis>, extent: int): (n: nat)
    ensures n <= |axes|
  {
    if axes == [] || axes[0].stride != extent then 0 else 1 + DenseLength(axes[1..], extent * axes[0].size)
  }

  /** Every axis walks forward through memory. */
  predicate Forward(axes: seq<Axis>) {
    forall i :: 0 <= i < |axes| ==> 0 < axes[i].stride
  }

  /** The largest address of the nest. */
  function Reach(axes: seq<Axis>): int {
    if axes == [] then 0
    else
      var n := |axes| - 1;
      Reach(axes[..n]) + (axes[n].size - 1) * axes[n].stride
  }

  /** From axis k on, every stride leaves at least one address free. */
  predicate Spread(axes: seq<Axis>, k: nat) {
    forall i :: k <= i < |axes| ==> Reach(axes[..i]) + 1 < axes[i].stride
  }

  // --- A dense nest counts its positions ---

  lemma {:induction false} ComposeSnoc(ds: seq<int>, rs: seq<nat>, d: int, r: nat)
    requires |ds| == |rs|
    ensures Compose(ds + [d], rs + [r]) == Compose(ds, rs) + d * Prod(rs)
  {
    if rs == [] {
      assert ds + [d] == [d] && rs + [r] == [r] && [d][1..] == [] && [r][1..] == [];
    } else {
      assert (ds + [d])[1..] == ds[1..] + [d] && (rs + [r])[1..] == rs[1..] + [r];
      ComposeSnoc(ds[1..], rs[1..], d, r);
      Distribute(rs[0], Compose(ds[1..], rs[1..]), d, Prod(rs[1..]));
    }
  }

  lemma Distribute(a: int, b: int, c: int, d: int)
    ensures a * (b + c * d) == a * b + c * (a * d)
  {
  }

  lemma DenseUpTo(axes: seq<Axis>, i: nat)
    requires i <= |axes|
    ensures Dense(axes[..i]) <==> forall k :: 0 <= k < i ==> DenseAt(axes, k)
  {
    forall k | 0 <= k < i ensures DenseAt(axes[..i], k) == DenseAt(axes, k) {
      assert axes[..i][..k] == axes[..k];
    }
    if Dense(axes[..i]) {
      forall k | 0 <= k < i ensures DenseAt(axes, k) {
        assert DenseAt(axes[..i], k);
      }
    }
  }

  lemma DensePrefix(axes: seq<Axis>, i: nat)
    requires 0 < i <= |axes|
    ensures Dense(axes[..i]) <==> Dense(axes[..i - 1]) && DenseAt(axes, i - 1)
  {
    DenseUpTo(axes, i);
    DenseUpTo(axes, i - 1);
  }

  lemma {:induction false} DenseAddress(axes: seq<Axis>, index: seq<int>)
    requires Dense(axes) && |index| == |axes|
    ensures Address(axes, index) == Compose(index, Sizes(axes))
  {
    if axes != [] {
      var n := |axes| - 1;
      var front := axes[..n];
      assert axes[..n + 1] == axes;
      DensePrefix(axes, n + 1);
      DenseAddress(front, index[..n]);
      ComposeSnoc(index[..n], Sizes(front), index[n], axes[n].size);
      assert index == index[..n] + [index[n]] && Sizes(axes) == Sizes(front) + [axes[n].size];
    }
  }

  lemma InPartBelow(axes: seq<Axis>, slots: seq<int>, index: seq<int>)
    requires Valid(axes) && ValidSlots(axes, slots) && |index| == |axes| && AllInPart(axes, slots, index)
    ensures Below(index, Sizes(axes))
  {
    forall i | 0 <= i < |axes| ensures 0 <= index[i] < axes[i].size {
      PartInside(axes[i], slots[i]);
    }
  }

  lemma PartInside(a: Axis, slot: int)
    requires ValidAxis(a) && 0 <= slot < a.split
    ensures 0 <= slot * (a.size / a.split) && (slot + 1) * (a.size / a.split) <= a.size
  {
    ExactDiv(a.size, a.split);
    MulMono(0, slot, a.size / a.split);
    MulMono(slot + 1, a.split, a.size / a.split);
  }

  /** On a dense nest the addresses a core reads are the positions it owns. */
  lemma AddressIsPosition(axes: seq<Axis>, slots: seq<int>, x: int)
    requires Valid(axes) && ValidSlots(axes, slots) && Dense(axes)
    ensures OwnsAddress(axes, slots, x) <==> Owned(axes, slots, x)
  {
    var sizes := Sizes(axes);
    if Owned(axes, slots, x) {
      ComposeDigits(x, sizes);
      DenseAddress(axes, Digits(x, sizes));
    }
    if OwnsAddress(axes, slots, x) {
      var index :| |index| == |axes| && AllInPart(axes, slots, index) && Address(axes, index) == x;
      DenseAddress(axes, index);
      InPartBelow(axes, slots, index);
      DigitsCompose(index, sizes);
    }
  }

  lemma PrefixProd(axes: seq<Axis>, i: nat)
    requires i < |axes|
    ensures Prod(Sizes(axes[..i + 1])) == Prod(Sizes(axes[..i])) * axes[i].size
  {
    assert Sizes(axes[..i + 1]) == Sizes(axes[..i]) + [axes[i].size];
    ProdConcat(Sizes(axes[..i]), [axes[i].size]);
    assert Prod([axes[i].size]) == axes[i].size;
  }

  // --- Outer axes that leave gaps ---

  /** The addresses of a longer nest are those of the shorter one, shifted. */
  lemma OwnsNext(axes: seq<Axis>, slots: seq<int>, x: int)
    requires Valid(axes) && |slots| == |axes| > 0
    ensures var n := |axes| - 1;
            OwnsAddress(axes, slots, x) <==>
            exists d :: InPart(axes[n], slots[n], d) && OwnsAddress(axes[..n], slots[..n], x - d * axes[n].stride)
  {
    var n := |axes| - 1;
    if OwnsAddress(axes, slots, x) {
      var d := OwnsInner(axes, slots, x);
    }
    if d :| InPart(axes[n], slots[n], d) && OwnsAddress(axes[..n], slots[..n], x - d * axes[n].stride) {
      OwnsOuter(axes, slots, x, d);
    }
  }

  lemma OwnsInner(axes: seq<Axis>, slots: seq<int>, x: int) returns (d: int)
    requires Valid(axes) && |slots| == |axes| > 0 && OwnsAddress(axes, slots, x)
    ensures var n := |axes| - 1;
            InPart(axes[n], slots[n], d) && OwnsAddress(axes[..n], slots[..n], x - d * axes[n].stride)
  {
    var n := |axes| - 1;
    var index :| |index| == |axes| && AllInPart(axes, slots, index) && Address(axes, index) == x;
    d := index[n];
    assert AllInPart(axes[..n], slots[..n], index[..n]);
  }

  lemma OwnsOuter(axes: seq<Axis>, slots: seq<int>, x: int, d: int)
    requires Valid(axes) && |slots| == |axes| > 0
    requires var n := |axes| - 1;
             InPart(axes[n], slots[n], d) && OwnsAddress(axes[..n], slots[..n], x - d * axes[n].stride)
    ensures OwnsAddress(axes, slots, x)
  {
    var n := |axes| - 1;
    var inner :| |inner| == n && AllInPart(axes[..n], slots[..n], inner) && Address(axes[..n], inner) == x - d * axes[n].stride;
    var index := inner + [d];
    assert index[..n] == inner;
    assert AllInPart(axes, slots, index);
    assert Address(axes, index) == x;
  }

  /** Addresses are between zero and the reach. */
  lemma {:induction false} OwnsWithin(axes: seq<Axis>, slots: seq<int>, x: int)
    requires Valid(axes) && ValidSlots(axes, slots) && Forward(axes) && OwnsAddress(axes, slots, x)
    ensures 0 <= x <= Reach(axes)
  {
    if axes == [] {
    } else {
      var n := |axes| - 1;
      OwnsNext(axes, slots, x);
      var d :| InPart(axes[n], slots[n], d) && OwnsAddress(axes[..n], slots[..n], x - d * axes[n].stride);
      OwnsWithin(axes[..n], slots[..n], x - d * axes[n].stride);
      PartInside(axes[n], slots[n]);
      MulMono(0, d, axes[n].stride);
      MulMono(d, axes[n].size - 1, axes[n].stride);
    }
  }

  /** Shifted copies of the inner addresses that leave a gap keep their stretches. */
  lemma ShiftedStretch(axes: seq<Axis>, slots: seq<int>, d: int, a: int, len: int)
    requires axes != [] && Valid(axes) && ValidSlots(axes, slots) && Forward(axes)
    requires var n := |axes| - 1;
             && InPart(axes[n], slots[n], d) && Stretch(axes[..n], slots[..n], a, len)
             && Reach(axes[..n]) + 1 < axes[n].stride
    ensures Stretch(axes, slots, a + d * axes[|axes| - 1].stride, len)
  {
    var n, s := |axes| - 1, axes[|axes| - 1].stride;
    forall y | a + d * s <= y < a + d * s + len ensures OwnsAddress(axes, slots, y) {
      assert OwnsAddress(axes[..n], slots[..n], y - d * s);
      OwnsNext(axes, slots, y);
    }
    OwnsWithin(axes[..n], slots[..n], a);
    OwnsWithin(axes[..n], slots[..n], a + len - 1);
    OnlyShift(axes, slots, d, a - 1);
    OnlyShift(axes, slots, d, a + len);
  }

  lemma SameShift(x: int, d: int, d': int, s: int, reach: int)
    requires -1 <= x <= reach + 1 < s && 0 <= x + d * s - d' * s <= reach
    ensures d == d'
  {
    if d < d' {
      MulMono(d + 1, d', s);
    } else if d' < d {
      MulMono(d' + 1, d, s);
    }
  }

  lemma OnlyShift(axes: seq<Axis>, slots: seq<int>, d: int, x: int)
    requires axes != [] && Valid(axes) && ValidSlots(axes, slots) && Forward(axes)
    requires var n := |axes| - 1;
             -1 <= x <= Reach(axes[..n]) + 1 < axes[n].stride && !OwnsAddress(axes[..n], slots[..n], x)
    ensures !OwnsAddress(axes, slots, x + d * axes[|axes| - 1].stride)
  {
    var n, s := |axes| - 1, axes[|axes| - 1].stride;
    var y := x + d * s;
    if OwnsAddress(axes, slots, y) {
      OwnsNext(axes, slots, y);
      var d' :| InPart(axes[n], slots[n], d') && OwnsAddress(axes[..n], slots[..n], y - d' * s);
      OwnsWithin(axes[..n], slots[..n], y - d' * s);
      SameShift(x, d, d', s, Reach(axes[..n]));
    }
  }

  lemma DenseAround(axes: seq<Axis>, slots: seq<int>, x: int) returns (a: int)
    requires Valid(axes) && ValidSlots(axes, slots) && Dense(axes) && OwnsAddress(axes, slots, x)
    ensures a <= x < a + Run(axes) && Stretch(axes, slots, a, Run(axes))
  {
    forall y ensures OwnsAddress(axes, slots, y) <==> Owned(axes, slots, y) {
      AddressIsPosition(axes, slots, y);
    }
    a := RunAround(axes, slots, x);
  }

  lemma SpreadFront(axes: seq<Axis>, k: nat)
    requires k < |axes| && Spread(axes, k)
    ensures var n := |axes| - 1;
            axes[..n][..k] == axes[..k] && Spread(axes[..n], k) && Reach(axes[..n]) + 1 < axes[n].stride
  {
    var n := |axes| - 1;
    forall i | k <= i < n ensures Reach(axes[..n][..i]) + 1 < axes[..n][i].stride {
      assert axes[..n][..i] == axes[..i];
    }
  }

  /** Every address a core reads lies in a stretch exactly as long as the run of the
      densely nested axes, when the others leave gaps. */
  lemma {:induction false} StretchAround(axes: seq<Axis>, slots: seq<int>, k: nat, x: int) returns (a: int)
    requires Valid(axes) && ValidSlots(axes, slots) && Forward(axes)
    requires k <= |axes| && Dense(axes[..k]) && Spread(axes, k) && OwnsAddress(axes, slots, x)
    ensures a <= x < a + Run(axes[..k]) && Stretch(axes, slots, a, Run(axes[..k]))
    decreases |axes|
  {
    if k == |axes| {
      assert axes[..k] == axes;
      a := DenseAround(axes, slots, x);
    } else {
      var n := |axes| - 1;
      var front := axes[..n];
      SpreadFront(axes, k);
      OwnsNext(axes, slots, x);
      var d :| InPart(axes[n], slots[n], d) && OwnsAddress(front, slots[..n], x - d * axes[n].stride);
      var b := StretchAround(front, slots[..n], k, x - d * axes[n].stride);
      ShiftedStretch(axes, slots, d, b, Run(axes[..k]));
      a := b + d * axes[n].stride;
    }
  }

  /** The run is the length of every stretch of addresses one core reads. */
  lemma EveryStretch(axes: seq<Axis>, slots: seq<int>, k: nat, a: int, n: int)
    requires Valid(axes) && ValidSlots(axes, slots) && Forward(axes)
    requires k <= |axes| && Dense(axes[..k]) && Spread(axes, k) && Stretch(axes, slots, a, n)
    ensures n == Run(axes[..k])
  {
    var b := StretchAround(axes, slots, k, a);
  }

  /** The length of every stretch of addresses that any core reads. */
  ghost predicate StretchLength(axes: seq<Axis>, length: real)
    requires Valid(axes)
  {
    forall slots, a, n :: ValidSlots(axes, slots) && Stretch(axes, slots, a, n) ==> n as real == length
  }

  // --- The walk ---

  /** Splits need not divide: the walk divides exactly. */
  predicate Positive(axes: seq<Axis>) {
    forall i :: 0 <= i < |axes| ==> 0 < axes[i].size && 0 < axes[i].split
  }

  function Share(a: Axis): real
    requires 0 < a.split
  {
    a.size as real / a.split as real
  }

  /** The unsplit inner axes, times one core's share of the first split axis. */
  function ExactRun(axes: seq<Axis>): real
    requires Positive(axes)
  {
    if axes == [] then 1.0
    else if axes[0].split > 1 then Share(axes[0])
    else axes[0].size as real * ExactRun(axes[1..])
  }

  lemma {:induction false} ExactRunIs(axes: seq<Axis>)
    requires Valid(axes)
    ensures ExactRun(axes) == Run(axes) as real
  {
    if axes != [] {
      if axes[0].split > 1 {
        ExactDiv(axes[0].size, axes[0].split);
        ExactShare(axes[0].size, axes[0].split, axes[0].size / axes[0].split);
      } else {
        ExactRunIs(axes[1..]);
      }
    }
  }

  lemma ExactShare(n: int, d: int, q: int)
    requires 0 < d && n == q * d
    ensures n as real / d as real == q as real
  {
    assert n as real == q as real * d as real;
  }

  lemma {:induction false} SplitRunNext(axes: seq<Axis>, next: Axis)
    requires Positive(axes) && 0 < next.size && 0 < next.split && !Whole(axes)
    ensures Positive(axes + [next]) && ExactRun(axes + [next]) == ExactRun(axes)
  {
    assert (axes + [next])[1..] == axes[1..] + [next];
    if axes[0].split == 1 {
      SplitRunNext(axes[1..], next);
    }
  }

  lemma {:induction false} WholeRunNext(axes: seq<Axis>, next: Axis, share: real)
    requires Positive(axes) && 0 < next.size && 0 < next.split && Whole(axes) && ExactRun([next]) == share
    ensures Positive(axes + [next]) && ExactRun(axes + [next]) == Prod(Sizes(axes)) as real * share
  {
    if axes == [] {
      assert axes + [next] == [next];
    } else {
      assert (axes + [next])[1..] == axes[1..] + [next];
      WholeRunNext(axes[1..], next, share);
      assert Sizes(axes)[1..] == Sizes(axes[1..]);
      Associate(axes[0].size, Prod(Sizes(axes[1..])), share);
    }
  }

  lemma WholeShare(a: Axis)
    requires 0 < a.size && 0 < a.split
    ensures ExactRun([a]) == Share(a)
  {
    assert [a][1..] == [];
  }

  lemma Associate(a: int, b: int, x: real)
    ensures a as real * (b as real * x) == (a * b) as real * x
  {
    assert (a * b) as real == a as real * b as real;
  }

  /** What the walk computes for the next axis. */
  lemma RunNext(axes: seq<Axis>, next: Axis)
    requires Positive(axes) && 0 < next.size && 0 < next.split
    ensures Positive(axes + [next])
    ensures ExactRun(axes + [next])
         == if Whole(axes) then (Prod(Sizes(axes)) * next.size) as real / next.split as real else ExactRun(axes)
  {
    if Whole(axes) {
      WholeShare(next);
      WholeRunNext(axes, next, Share(next));
      ScaleShare(Prod(Sizes(axes)), next.size, next.split);
    } else {
      SplitRunNext(axes, next);
    }
  }

  lemma ScaleShare(a: int, b: int, d: int)
    requires 0 < d
    ensures a as real * (b as real / d as real) == (a * b) as real / d as real
  {
    assert (a * b) as real == a as real * b as real;
  }

  lemma {:induction false} DenseLengthFrom(axes: seq<Axis>, i: nat)
    requires i <= |axes| && Dense(axes[..i])
    ensures DenseLength(axes, 1) == i + DenseLength(axes[i..], Prod(Sizes(axes[..i])))
    decreases i
  {
    if i == 0 {
      assert axes[0..] == axes && Sizes(axes[..0]) == [];
    } else {
      DensePrefix(axes, i);
      DenseLengthFrom(axes, i - 1);
      var rest := axes[i - 1..];
      assert rest[1..] == axes[i..] && rest[0] == axes[i - 1];
      PrefixProd(axes, i - 1);
    }
  }

  /** On a dense nest the walk takes in every axis, and no axis needs to leave a gap. */
  lemma DenseNest(axes: seq<Axis>)
    requires Dense(axes)
    ensures DenseLength(axes, 1) == |axes| && Spread(axes, DenseLength(axes, 1))
  {
    assert axes[..|axes|] == axes;
    DenseLengthFrom(axes, |axes|);
  }

  lemma StretchesAre(axes: seq<Axis>, k: nat)
    requires Valid(axes) && Forward(axes) && k <= |axes| && Dense(axes[..k]) && Spread(axes, k)
    ensures StretchLength(axes, ExactRun(axes[..k]))
  {
    ExactRunIs(axes[..k]);
    forall slots, a, n | ValidSlots(axes, slots) && Stretch(axes, slots, a, n) ensures n == Run(axes[..k]) {
      EveryStretch(axes, slots, k, a, n);
    }
  }

  /** Whether every axis walks forward and has elements. */
  method WalksForward(axes: seq<Axis>) returns (ok: bool)
    requires forall i :: 0 <= i < |axes| ==> 0 < axes[i].split
    ensures ok <==> Forward(axes) && Positive(axes)
  {
    for i := 0 to |axes|
      invariant forall k :: 0 <= k < i ==> 0 < axes[k].stride && 0 < axes[k].size
    {
      if axes[i].stride <= 0 || axes[i].size <= 0 {
        return false;
      }
    }
    ok := true;
  }

  /** Coalesce the axes that nest densely, from the innermost out. */
  method Walk(axes: seq<Axis>) returns (run: real)
    requires Positive(axes)
    ensures Dense(axes[..DenseLength(axes, 1)]) && run == ExactRun(axes[..DenseLength(axes, 1)])
  {
    var extent, innerWhole, i := 1, true, 0;
    run := 1.0;
    while i < |axes| && axes[i].stride == extent
      invariant i <= |axes| && extent == Prod(Sizes(axes[..i])) && run == ExactRun(axes[..i])
      invariant innerWhole == Whole(axes[..i]) && Dense(axes[..i])
    {
      RunNext(axes[..i], axes[i]);
      PrefixProd(axes, i);
      DensePrefix(axes, i + 1);
      assert axes[..i + 1] == axes[..i] + [axes[i]];
      if innerWhole {
        run := (extent * axes[i].size) as real / axes[i].split as real;
      }
      innerWhole := innerWhole && axes[i].split == 1;
      extent := extent * axes[i].size;
      i := i + 1;
    }
    DenseLengthFrom(axes, i);
  }

  /** Axes in order of stride. None when one of them does not walk forward or none walks
      memory one element at a time. When the splits divide the sizes and the axes behind
      the dense ones leave gaps, every stretch of addresses that any core reads has the
      length returned. */
  method ContiguousDeviceRun(axes: seq<Axis>) returns (r: Option<real>)
    requires forall i :: 0 <= i < |axes| ==> 0 < axes[i].split
    ensures r.None? <==> !Forward(axes) || !Positive(axes) || axes == [] || axes[0].stride != 1
    ensures r.Some? ==> r.value == ExactRun(axes[..DenseLength(axes, 1)])
    ensures r.Some? && Valid(axes) && Spread(axes, DenseLength(axes, 1)) ==> StretchLength(axes, r.value)
  {
    var ok := WalksForward(axes);
    if !ok || axes == [] || axes[0].stride != 1 {
      return None;
    }
    var run := Walk(axes);
    if Valid(axes) && Spread(axes, DenseLength(axes, 1)) {
      StretchesAre(axes, DenseLength(axes, 1));
    }
    r := Some(run);
  }

  // --- Without gaps ---

  /** Four elements, copied at distances 8 and 12. */
  function Touching(): (axes: seq<Axis>)
    ensures Valid(axes) && Forward(axes) && |axes| == 3
  {
    [Axis(1, 4, 1), Axis(8, 2, 1), Axis(12, 2, 1)]
  }

  lemma TouchingAddress(index: seq<int>)
    requires |index| == 3
    ensures Address(Touching(), index) == index[0] + 8 * index[1] + 12 * index[2]
  {
    var axes := Touching();
    assert axes[..2][..1] == axes[..1] && axes[..1][..0] == [];
    assert index[..2][..1] == index[..1] && index[..1][..0] == [];
    assert Address(axes[..1], index[..1]) == index[0];
    assert Address(axes[..2], index[..2]) == index[0] + index[1] * 8;
  }

  lemma TouchingOwns(x: int)
    ensures OwnsAddress(Touching(), [0, 0, 0], x) <==> 0 <= x < 4 || 8 <= x < 16 || 20 <= x < 24
  {
    var axes := Touching();
    if OwnsAddress(axes, [0, 0, 0], x) {
      var index :| |index| == |axes| && AllInPart(axes, [0, 0, 0], index) && Address(axes, index) == x;
      TouchingAddress(index);
      assert InPart(axes[0], 0, index[0]) && InPart(axes[1], 0, index[1]) && InPart(axes[2], 0, index[2]);
    }
    if 0 <= x < 4 || 8 <= x < 16 || 20 <= x < 24 {
      TouchingHas(x);
    }
  }

  lemma TouchingHas(x: int)
    requires 0 <= x < 4 || 8 <= x < 16 || 20 <= x < 24
    ensures OwnsAddress(Touching(), [0, 0, 0], x)
  {
    var index := if x < 4 then [x, 0, 0] else if x < 12 then [x - 8, 1, 0] else if x < 16 then [x - 12, 0, 1] else [x - 20, 1, 1];
    TouchingAddress(index);
    assert AllInPart(Touching(), [0, 0, 0], index);
  }

  /** Copies that touch make a longer stretch than the walk finds: the condition on gaps
      cannot be dropped. */
  lemma GapsNeeded()
    ensures DenseLength(Touching(), 1) == 1 && Run(Touching()[..1]) == 4
    ensures Stretch(Touching(), [0, 0, 0], 8, 8) && !Spread(Touching(), 1)
  {
    var axes := Touching();
    assert DenseLength(axes[1..], 4) == 0;
    assert axes[..1][1..] == [];
    forall x ensures OwnsAddress(axes, [0, 0, 0], x) <==> 0 <= x < 4 || 8 <= x < 16 || 20 <= x < 24 {
      TouchingOwns(x);
    }
    assert axes[..2][..1] == axes[..1] && axes[..1][..0] == [];
    assert Reach(axes[..1]) == 3 && Reach(axes[..2]) == 11;
    assert !(Reach(axes[..2]) + 1 < axes[2].stride);
  }
}
