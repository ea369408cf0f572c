/** Distributing a split over the segments a loop is cut into
    (`distribute_aligned_split` and `aligned_split_keeps_blocks` of
    `torch_spyre/_inductor/core_mapping.py`). */
module AlignedSplit {
  import opened Arith

  /** `math.gcd` on non-negative integers. */
  function Gcd(a: nat, b: nat): (g: nat)
    decreases b
  {
    if b == 0 then a else Gcd(b, a % b)
  }

  lemma {:induction false} GcdDivides(a: nat, b: nat)
    requires 0 < a
    ensures 0 < Gcd(a, b) && Divides(Gcd(a, b), a) && Divides(Gcd(a, b), b)
    decreases b
  {
    if b == 0 {
      assert a == a * 1 && b == a * 0;
    } else {
      GcdDivides(b, a % b);
      var g := Gcd(b, a % b);
      var k :| b == g * k;
      var j :| a % b == g * j;
      DivModEq(a, b);
      assert a == g * (a / b * k + j) by {
        assert (a / b) * (g * k) == g * (a / b * k);
      }
    }
  }

  /** Bezout: the greatest common divisor is an integer combination. */
  lemma {:induction false} Bezout(a: nat, b: nat) returns (u: int, v: int)
    ensures u * a + v * b == Gcd(a, b)
    decreases b
  {
    if b == 0 {
      u, v := 1, 0;
    } else {
      var s, t := Bezout(b, a % b);
      DivModEq(a, b);
      u, v := t, s - t * (a / b);
      assert t * a == t * ((a / b) * b) + t * (a % b);
      assert (t * (a / b)) * b == t * ((a / b) * b);
    }
  }

  lemma CancelFactor(g: int, x: int, y: int)
    requires 0 < g && g * x == g * y
    ensures x == y
  {
  }

  lemma Regroup(g: int, a: int, b: int, c: int)
    ensures (a * b) * (g * c) == (g * a) * (b * c)
  {
    assert (a * b) * (g * c) == g * (a * (b * c)) == (g * a) * (b * c);
  }

  lemma Rotate(a: int, b: int, c: int, d: int)
    ensures (a * (b * c)) * d == b * (c * (a * d))
    ensures a * ((b * c) * d) == b * (c * (a * d))
  {
    assert (a * (b * c)) * d == (b * c) * (a * d);
    assert (b * c) * (a * d) == b * (c * (a * d));
    assert a * ((b * c) * d) == (b * c) * (a * d);
  }

  lemma Distributes(a: int, x: int, y: int)
    ensures a * x + a * y == a * (x + y) && x * a + y * a == (x + y) * a
  {
  }

  /** g == u*r + v*b gives g*p == u*r*p + v*(p*b) == r*(u*p + v*k). */
  lemma Combine(g: int, r1: int, b: int, p: int, k: int, u: int, v: int)
    requires 0 < g && u * (g * r1) + v * b == g && p * b == (g * r1) * k
    ensures p == r1 * (u * p + v * k)
  {
    var x, y := r1 * (u * p), r1 * (v * k);
    Distributes(p, u * (g * r1), v * b);
    Rotate(u, g, r1, p);
    assert (v * b) * p == v * (p * b);
    Rotate(v, g, r1, k);
    Distributes(g, x, y);
    Distributes(r1, u * p, v * k);
    CancelFactor(g, p, x + y);
  }

  lemma GcdQuotient(r: nat, b: nat) returns (r1: nat, c: int)
    requires 0 < r
    ensures 0 < Gcd(r, b) && r == Gcd(r, b) * r1 && b == Gcd(r, b) * c && 0 < r1 == r / Gcd(r, b)
  {
    GcdDivides(r, b);
    var g := Gcd(r, b);
    var q :| r == g * q;
    c :| b == g * c;
    DivModUnique(r, g, q, 0);
    if q <= 0 {
      MulMono(q, 0, g);
    }
    r1 := q;
  }

  /** What remains of a split after its greatest common factor with a segment
      divides the other segments exactly when the split divides them all. */
  lemma LeftoverDivides(r: nat, b: nat, p: nat)
    requires 0 < r
    ensures 0 < Gcd(r, b) && 0 < r / Gcd(r, b)
    ensures Divides(r, p * b) <==> Divides(r / Gcd(r, b), p)
  {
    var g := Gcd(r, b);
    var r1, c := GcdQuotient(r, b);
    if Divides(r1, p) {
      var k :| p == r1 * k;
      Regroup(g, r1, k, c);
      assert p * b == r * (k * c);
    }
    if Divides(r, p * b) {
      var k :| p * b == r * k;
      var u, v := Bezout(r, b);
      Combine(g, r1, b, p, k, u, v);
    }
  }

  /** Outermost segment first: factors innermost first, and what is left over. */
  function Distribute(split: nat, bases: seq<nat>): (seq<nat>, nat)
    requires 0 < split
    decreases bases
  {
    if bases == [] then ([], split)
    else
      var n := |bases| - 1;
      var factor := Gcd(split, bases[n]);
      LeftoverDivides(split, bases[n], 1);
      var (inner, left) := Distribute(split / factor, bases[..n]);
      (inner + [factor], left)
  }

  /** The greedy distribution is complete: it takes only exact divisors, loses
      nothing, and leaves 1 whenever the split can be placed at all. */
  lemma {:induction false} DistributeComplete(split: nat, bases: seq<nat>)
    requires 0 < split
    ensures var (factors, left) := Distribute(split, bases);
            && |factors| == |bases| && AllPositive(factors)
            && (forall i :: 0 <= i < |bases| ==> Divides(factors[i], bases[i]))
            && Prod(factors) * left == split
            && (left == 1 <==> Divides(split, Prod(bases)))
    decreases bases
  {
    if bases == [] {
      if Divides(split, 1) {
        var k :| 1 == split * k;
        UnitFactor(split, k);
      }
      assert 1 == 1 * 1;
    } else {
      var n := |bases| - 1;
      var g := Gcd(split, bases[n]);
      GcdDivides(split, bases[n]);
      LeftoverDivides(split, bases[n], Prod(bases[..n]));
      DistributeComplete(split / g, bases[..n]);
      ProdSnoc(bases, n);
      assert bases[..n + 1] == bases;
      var (inner, left) := Distribute(split / g, bases[..n]);
      ProdConcat(inner, [g]);
      assert Prod([g]) == g;
      var r1, c := GcdQuotient(split, bases[n]);
      MulSwap(Prod(inner), g, left);
      var (factors, _) := Distribute(split, bases);
      forall i | 0 <= i < |bases| ensures Divides(factors[i], bases[i]) {
        if i < n { assert factors[i] == inner[i] && bases[i] == bases[..n][i]; }
      }
    }
  }

  lemma UnitFactor(a: int, k: int)
    requires 0 < a && a * k == 1
    ensures a == 1
  {
    if k <= 0 {
      MulMono(k, 0, a);
    } else {
      MulMono(1, k, a);
    }
  }

  lemma DistributeStep(r: nat, bases: seq<nat>, i: nat, outer: seq<nat>)
    requires 0 < r && i < |bases|
    ensures 0 < Gcd(r, bases[i]) && 0 < r / Gcd(r, bases[i])
    ensures var (inner, left) := Distribute(r / Gcd(r, bases[i]), bases[..i]);
            && Distribute(r, bases[..i + 1]).0 + outer == inner + ([Gcd(r, bases[i])] + outer)
            && Distribute(r, bases[..i + 1]).1 == left
  {
    LeftoverDivides(r, bases[i], 1);
    assert bases[..i + 1][..i] == bases[..i];
  }

  method DistributeAlignedSplit(split: nat, bases: seq<nat>) returns (factors: seq<nat>, remaining: nat)
    requires 0 < split
    ensures factors == Distribute(split, bases).0 && remaining == Distribute(split, bases).1
    ensures remaining == 1 <==> Divides(split, Prod(bases))
    ensures |factors| == |bases| && Prod(factors) * remaining == split
    ensures forall i :: 0 <= i < |bases| ==> 0 < factors[i] && Divides(factors[i], bases[i])
  {
    DistributeComplete(split, bases);
    ghost var goal := Distribute(split, bases);
    factors, remaining := [], split;
    assert bases[..|bases|] == bases && goal.0 + [] == goal.0;
    for i := |bases| downto 0
      invariant 0 < remaining
      invariant goal.0 == Distribute(remaining, bases[..i]).0 + factors
      invariant goal.1 == Distribute(remaining, bases[..i]).1
    {
      DistributeStep(remaining, bases, i, factors);
      var factor := Gcd(remaining, bases[i]);
      factors := [factor] + factors;
      remaining := remaining / factor;
    }
    assert bases[..0] == [] && [] + factors == factors;
    assert factors == goal.0 && remaining == goal.1;
  }

  /** Every segment outside a split one is split whole. */
  predicate KeepsBlocks(factors: seq<nat>, bases: seq<nat>)
    requires |factors| == |bases|
  {
    forall i, j :: 0 <= i < j < |bases| && factors[i] > 1 ==> factors[j] >= bases[j]
  }

  /** Factors that cut their segments evenly. */
  ghost predicate Cuts(factors: seq<nat>, bases: seq<nat>) {
    && |factors| == |bases| && AllPositive(bases) && AllPositive(factors)
    && forall i :: 0 <= i < |bases| ==> Divides(factors[i], bases[i])
  }

  /** The owner slot of loop value x when each segment of extent `bases[i]` is cut
      into `factors[i]` blocks and the slots are combined innermost first. */
  ghost function SegmentOwner(x: int, factors: seq<nat>, bases: seq<nat>): int
    requires Cuts(factors, bases)
    decreases bases
  {
    if bases == [] then 0
    else
      CutsHead(factors, bases);
      x % bases[0] / (bases[0] / factors[0]) + factors[0] * SegmentOwner(x / bases[0], factors[1..], bases[1..])
  }

  lemma CutsHead(factors: seq<nat>, bases: seq<nat>)
    requires Cuts(factors, bases) && bases != []
    ensures Cuts(factors[1..], bases[1..])
    ensures bases[0] == (bases[0] / factors[0]) * factors[0] && 0 < bases[0] / factors[0]
    ensures factors[0] <= bases[0]
  {
    var f, b := factors[0], bases[0];
    DividesMod(f, b);
    ExactDiv(b, f);
    MulMono(1, b / f, f);
    forall i | 0 <= i < |bases[1..]| ensures Divides(factors[1..][i], bases[1..][i]) {
      assert Divides(factors[i + 1], bases[i + 1]);
    }
  }

  /** The width of one block: the extent divided by the split, segment by segment. */
  lemma {:induction false} BlockWidth(factors: seq<nat>, bases: seq<nat>) returns (w: nat)
    requires Cuts(factors, bases)
    ensures 0 < Prod(factors) && 0 < w && Prod(bases) == w * Prod(factors) && Prod(bases) / Prod(factors) == w
    ensures bases != [] ==> w == bases[0] / factors[0] * (Prod(bases[1..]) / Prod(factors[1..]))
    decreases bases
  {
    ProdPositive(factors);
    if bases == [] {
      w := 1;
    } else {
      CutsHead(factors, bases);
      var inner := BlockWidth(factors[1..], bases[1..]);
      var w0, f0 := bases[0] / factors[0], factors[0];
      w := w0 * inner;
      MulPositive(w0, inner);
      Interchange(w0, f0, inner, Prod(factors[1..]));
    }
    DivModUnique(Prod(bases), Prod(factors), w, 0);
  }

  lemma Interchange(a: int, b: int, c: int, d: int)
    ensures (a * b) * (c * d) == (a * c) * (b * d)
  {
    Regroup(c, a, b, d);
  }

  lemma {:induction false} WholeOwner(x: int, factors: seq<nat>, bases: seq<nat>)
    requires Cuts(factors, bases) && factors == bases && 0 <= x < Prod(bases)
    ensures SegmentOwner(x, factors, bases) == x
    decreases bases
  {
    if bases != [] {
      CutsHead(factors, bases);
      var b := bases[0];
      DivModUnique(b, b, 1, 0);
      DivBounds(x, b, 0, Prod(bases[1..]));
      WholeOwner(x / b, factors[1..], bases[1..]);
      DivModEq(x, b);
    }
  }

  lemma WholeFactors(factors: seq<nat>, bases: seq<nat>)
    requires Cuts(factors, bases) && KeepsBlocks(factors, bases) && bases != [] && factors[0] > 1
    ensures factors[1..] == bases[1..]
  {
    forall i | 0 <= i < |bases[1..]| ensures factors[1..][i] == bases[1..][i] {
      DividesMod(factors[i + 1], bases[i + 1]);
      ExactDiv(bases[i + 1], factors[i + 1]);
      MulMono(1, bases[i + 1] / factors[i + 1], factors[i + 1]);
    }
  }

  /** One segment of width w*f, cut into f blocks, inside a whole outer part. */
  lemma JoinDigits(x: int, w: int, f: int)
    requires 0 < w && 0 < f
    ensures 0 < w * f && x % (w * f) / w + f * (x / (w * f)) == x / w
  {
    DivOfMod(x, w, f);
    DivDiv(x, w, f);
    DivModEq(x / w, f);
  }

  /** A split that keeps blocks gives slot s the s-th run of loop values. */
  lemma {:induction false} KeptBlocks(x: int, factors: seq<nat>, bases: seq<nat>)
    requires Cuts(factors, bases) && KeepsBlocks(factors, bases) && 0 <= x < Prod(bases)
    ensures 0 < Prod(factors) && 0 < Prod(bases) / Prod(factors)
    ensures SegmentOwner(x, factors, bases) == x / (Prod(bases) / Prod(factors))
    decreases bases
  {
    var w := BlockWidth(factors, bases);
    if bases != [] {
      CutsHead(factors, bases);
      var b, f, w0 := bases[0], factors[0], bases[0] / factors[0];
      var inner := BlockWidth(factors[1..], bases[1..]);
      DivBounds(x, b, 0, Prod(bases[1..]));
      if f == 1 {
        KeptBlocks(x / b, factors[1..], bases[1..]);
        DivDiv(x, b, inner);
        DivModUnique(x % b, b, 0, x % b);
      } else {
        WholeFactors(factors, bases);
        WholeOwner(x / b, factors[1..], bases[1..]);
        DivModUnique(Prod(bases[1..]), Prod(bases[1..]), 1, 0);
        JoinDigits(x, w0, f);
      }
    }
  }

  lemma {:induction false} ZeroOwned(factors: seq<nat>, bases: seq<nat>)
    requires Cuts(factors, bases)
    ensures SegmentOwner(0, factors, bases) == 0
    decreases bases
  {
    if bases != [] {
      CutsHead(factors, bases);
      ZeroOwned(factors[1..], bases[1..]);
    }
  }

  lemma OuterOwner(t: int, factors: seq<nat>, bases: seq<nat>)
    requires Cuts(factors, bases) && bases != []
    ensures Cuts(factors[1..], bases[1..])
    ensures SegmentOwner(t * bases[0], factors, bases) == factors[0] * SegmentOwner(t, factors[1..], bases[1..])
  {
    CutsHead(factors, bases);
    DivModUnique(t * bases[0], bases[0], t, 0);
  }

  /** If some segment is not split whole, slot 0 owns a value besides 0. */
  lemma {:induction false} SharedSlot(factors: seq<nat>, bases: seq<nat>, j: nat) returns (t: int)
    requires Cuts(factors, bases) && j < |bases| && factors[j] < bases[j]
    ensures 0 < t < Prod(bases) && SegmentOwner(t, factors, bases) == 0
    decreases bases
  {
    CutsHead(factors, bases);
    ProdPositive(bases[1..]);
    var b, f := bases[0], factors[0];
    if j == 0 {
      t := 1;
      ZeroOwned(factors[1..], bases[1..]);
      DivModUnique(1, b, 0, 1);
      assert b / f != 1;
      DivModUnique(1, b / f, 0, 1);
      MulMono(1, Prod(bases[1..]), b);
    } else {
      var t' := SharedSlot(factors[1..], bases[1..], j - 1);
      t := t' * b;
      OuterOwner(t', factors, bases);
      BlockStart(t', b, Prod(bases[1..]));
      MulPositive(t', b);
    }
  }

  /** Interleaving of the outer segments is interleaving of the whole. */
  lemma InterleavedOuter(factors: seq<nat>, bases: seq<nat>, x: int, y: int, z: int)
    requires Cuts(factors, bases) && bases != [] && Cuts(factors[1..], bases[1..])
    requires 0 <= x < y < z < Prod(bases[1..])
    requires SegmentOwner(x, factors[1..], bases[1..]) == SegmentOwner(z, factors[1..], bases[1..])
          != SegmentOwner(y, factors[1..], bases[1..])
    ensures var b := bases[0];
            && 0 <= x * b < y * b < z * b < Prod(bases)
            && SegmentOwner(x * b, factors, bases) == SegmentOwner(z * b, factors, bases)
            && SegmentOwner(x * b, factors, bases) != SegmentOwner(y * b, factors, bases)
  {
    OuterOwner(x, factors, bases);
    OuterOwner(y, factors, bases);
    OuterOwner(z, factors, bases);
    ScaledOrder(x, y, z, bases[0], Prod(bases[1..]));
    DifferentScaled(factors[0], SegmentOwner(x, factors[1..], bases[1..]), SegmentOwner(y, factors[1..], bases[1..]));
  }

  lemma ScaledOrder(x: int, y: int, z: int, b: int, n: int)
    requires 0 <= x < y < z < n && 0 < b
    ensures 0 <= x * b < y * b < z * b < b * n
  {
    BlockStart(z, b, n);
    MulMono(0, x, b);
    MulMono(x + 1, y, b);
    MulMono(y + 1, z, b);
  }

  lemma DifferentScaled(f: int, p: int, q: int)
    requires 0 < f && p != q
    ensures f * p != f * q
  {
    if f * p == f * q {
      CancelFactor(f, p, q);
    }
  }

  lemma KeepsHead(factors: seq<nat>, bases: seq<nat>)
    requires |factors| == |bases| && bases != []
    ensures KeepsBlocks(factors, bases) <==>
              && KeepsBlocks(factors[1..], bases[1..])
              && (factors[0] > 1 ==> forall j :: 0 < j < |bases| ==> factors[j] >= bases[j])
  {
    if KeepsBlocks(factors[1..], bases[1..]) && (factors[0] > 1 ==> forall j :: 0 < j < |bases| ==> factors[j] >= bases[j]) {
      forall i, j | 0 <= i < j < |bases| && factors[i] > 1 ensures factors[j] >= bases[j] {
        if i > 0 { assert factors[1..][i - 1] == factors[i] && factors[1..][j - 1] == factors[j]; }
      }
    }
  }

  /** The innermost segment is split, and some outer one is not split whole. */
  lemma InterleavedInner(factors: seq<nat>, bases: seq<nat>, j: nat) returns (z: int)
    requires Cuts(factors, bases) && 0 < j < |bases| && factors[0] > 1 && factors[j] < bases[j]
    ensures 0 < bases[0] - 1 < z < Prod(bases)
    ensures SegmentOwner(0, factors, bases) == SegmentOwner(z, factors, bases)
         != SegmentOwner(bases[0] - 1, factors, bases)
  {
    CutsHead(factors, bases);
    var b, f := bases[0], factors[0];
    var t := SharedSlot(factors[1..], bases[1..], j - 1);
    z := t * b;
    ZeroOwned(factors, bases);
    ZeroOwned(factors[1..], bases[1..]);
    OuterOwner(t, factors, bases);
    BlockStart(t, b, Prod(bases[1..]));
    MulMono(1, t, b);
    LastBlock(b, f);
  }

  /** Otherwise some slot owns two values but not one between them. */
  lemma {:induction false} Interleaved(factors: seq<nat>, bases: seq<nat>) returns (x: int, y: int, z: int)
    requires Cuts(factors, bases) && !KeepsBlocks(factors, bases)
    ensures 0 <= x < y < z < Prod(bases)
    ensures SegmentOwner(x, factors, bases) == SegmentOwner(z, factors, bases) != SegmentOwner(y, factors, bases)
    decreases bases
  {
    CutsHead(factors, bases);
    if KeepsBlocks(factors[1..], bases[1..]) {
      KeepsHead(factors, bases);
      var j :| 0 < j < |bases| && factors[j] < bases[j];
      x, y := 0, bases[0] - 1;
      z := InterleavedInner(factors, bases, j);
    } else {
      var x', y', z' := Interleaved(factors[1..], bases[1..]);
      InterleavedOuter(factors, bases, x', y', z');
      x, y, z := x' * bases[0], y' * bases[0], z' * bases[0];
    }
  }

  lemma LastBlock(b: int, f: int)
    requires 0 < f && 0 < b / f && b == b / f * f
    ensures b - 1 >= 0 && (b - 1) % b == b - 1 && (b - 1) / b == 0 && (b - 1) / (b / f) == f - 1
  {
    var w := b / f;
    MulPositive(w, f);
    DivModUnique(b - 1, b, 0, b - 1);
    assert b - 1 == (f - 1) * w + (w - 1);
    DivModUnique(b - 1, w, f - 1, w - 1);
  }

  /** Slot s owns the s-th run of n/split consecutive loop values. */
  ghost predicate OwnsRuns(split: nat, factors: seq<nat>, bases: seq<nat>) {
    && Cuts(factors, bases) && 0 < split && 0 < Prod(bases) / split
    && forall x :: 0 <= x < Prod(bases) ==> SegmentOwner(x, factors, bases) == x / (Prod(bases) / split)
  }

  /** No slot owns two loop values without the ones between them. */
  ghost predicate OwnsIntervals(factors: seq<nat>, bases: seq<nat>) {
    && Cuts(factors, bases)
    && forall x, y, z :: 0 <= x < y < z < Prod(bases)
         && SegmentOwner(x, factors, bases) == SegmentOwner(z, factors, bases)
         ==> SegmentOwner(y, factors, bases) == SegmentOwner(x, factors, bases)
  }

  lemma DistributeCuts(split: nat, bases: seq<nat>)
    requires 0 < split && AllPositive(bases) && Divides(split, Prod(bases))
    ensures Cuts(Distribute(split, bases).0, bases) && Prod(Distribute(split, bases).0) == split
  {
    DistributeComplete(split, bases);
  }

  /** The test is exact: it holds if and only if the distributed split still gives
      every slot one run of consecutive values, and fails only by interleaving. */
  lemma KeepsBlocksExactly(split: nat, bases: seq<nat>)
    requires 0 < split && AllPositive(bases) && Divides(split, Prod(bases))
    ensures var factors := Distribute(split, bases).0;
            && |factors| == |bases|
            && (KeepsBlocks(factors, bases) <==> OwnsRuns(split, factors, bases))
            && (KeepsBlocks(factors, bases) <==> OwnsIntervals(factors, bases))
  {
    var factors := Distribute(split, bases).0;
    DistributeCuts(split, bases);
    var w := BlockWidth(factors, bases);
    if KeepsBlocks(factors, bases) {
      forall x | 0 <= x < Prod(bases) ensures SegmentOwner(x, factors, bases) == x / (Prod(bases) / split) {
        KeptBlocks(x, factors, bases);
      }
      RunsAreIntervals(split, factors, bases);
    } else {
      var x, y, z := Interleaved(factors, bases);
      if OwnsRuns(split, factors, bases) {
        RunsAreIntervals(split, factors, bases);
      }
    }
  }

  lemma RunsAreIntervals(split: nat, factors: seq<nat>, bases: seq<nat>)
    requires OwnsRuns(split, factors, bases)
    ensures OwnsIntervals(factors, bases)
  {
    var w := Prod(bases) / split;
    forall x, y, z | 0 <= x < y < z < Prod(bases) && SegmentOwner(x, factors, bases) == SegmentOwner(z, factors, bases)
      ensures SegmentOwner(y, factors, bases) == SegmentOwner(x, factors, bases)
    {
      DivMono(x, y, w);
      DivMono(y, z, w);
    }
  }

  method AlignedSplitKeepsBlocks(split: nat, bases: seq<nat>) returns (keeps: bool)
    requires 0 < split
    ensures keeps ==> Divides(split, Prod(bases))
    ensures AllPositive(bases) && Divides(split, Prod(bases)) ==>
              && (keeps <==> OwnsRuns(split, Distribute(split, bases).0, bases))
              && (keeps <==> OwnsIntervals(Distribute(split, bases).0, bases))
  {
    var factors, remaining := DistributeAlignedSplit(split, bases);
    if AllPositive(bases) && remaining == 1 {
      KeepsBlocksExactly(split, bases);
    }
    if remaining != 1 {
      return false;
    }
    var splitInside := false;
    for i := |bases| downto 0
      invariant splitInside <==> exists j :: i <= j < |bases| && factors[j] < bases[j]
      invariant forall k, j :: i <= k < j < |bases| && factors[k] > 1 ==> factors[j] >= bases[j]
    {
      if splitInside && factors[i] > 1 {
        return false;
      }
      splitInside := splitInside || factors[i] < bases[i];
    }
    keeps := true;
  }
}
