/** Row-major storage of a rectangle: byte strides, addresses, and the cells two
    placed rectangles share. */
module DenseLayout {
  import opened Arith
  import opened Radix

  /** The stride of an axis is the volume of the axes inside it, in bytes. */
  function Strides(shape: seq<nat>, bytes: nat): (s: seq<int>)
    ensures |s| == |shape| && forall i :: 0 <= i < |shape| ==> s[i] == Prod(shape[i + 1..]) * bytes
  {
    seq(|shape|, i requires 0 <= i < |shape| => Prod(shape[i + 1..]) * bytes)
  }

  function Dot(q: seq<int>, w: seq<int>): int
    requires |q| == |w|
  {
    if q == [] then 0 else q[0] * w[0] + Dot(q[1..], w[1..])
  }

  function Plus(a: seq<int>, b: seq<int>): (s: seq<int>)
    requires |a| == |b|
    ensures |s| == |a| && forall i :: 0 <= i < |a| ==> s[i] == a[i] + b[i]
  {
    seq(|a|, i requires 0 <= i < |a| => a[i] + b[i])
  }

  function Minus(a: seq<int>, b: seq<int>): (s: seq<int>)
    requires |a| == |b|
    ensures |s| == |a| && forall i :: 0 <= i < |a| ==> s[i] == a[i] - b[i]
  {
    seq(|a|, i requires 0 <= i < |a| => a[i] - b[i])
  }

  lemma PlusMinus(a: seq<int>, b: seq<int>)
    requires |a| == |b|
    ensures Minus(Plus(a, b), a) == b && Plus(a, Minus(b, a)) == b
  {
  }

  lemma {:induction false} DotPlus(a: seq<int>, b: seq<int>, w: seq<int>)
    requires |a| == |b| == |w|
    ensures Dot(Plus(a, b), w) == Dot(a, w) + Dot(b, w)
  {
    if a != [] {
      DotPlus(a[1..], b[1..], w[1..]);
      assert Plus(a, b)[1..] == Plus(a[1..], b[1..]);
      assert (a[0] + b[0]) * w[0] == a[0] * w[0] + b[0] * w[0];
    }
  }

  /** The position of a point when a rectangle is numbered row by row. */
  function Dense(q: seq<int>, shape: seq<nat>): int
    requires |q| == |shape|
    decreases shape
  {
    if shape == [] then 0 else q[0] * Prod(shape[1..]) + Dense(q[1..], shape[1..])
  }

  lemma {:induction false} DotIsDense(q: seq<int>, shape: seq<nat>, bytes: nat)
    requires |q| == |shape|
    ensures Dot(q, Strides(shape, bytes)) == Dense(q, shape) * bytes
  {
    if shape != [] {
      DotIsDense(q[1..], shape[1..], bytes);
      StridesTail(shape, bytes);
      Distribute3(q[0], Prod(shape[1..]), Dense(q[1..], shape[1..]), bytes);
    }
  }

  lemma Distribute3(a: int, b: int, c: int, d: int)
    ensures (a * b + c) * d == a * (b * d) + c * d
  {
  }

  lemma StridesTail(shape: seq<nat>, bytes: nat)
    requires shape != []
    ensures Strides(shape, bytes)[0] == Prod(shape[1..]) * bytes
    ensures Strides(shape, bytes)[1..] == Strides(shape[1..], bytes)
  {
    forall i | 0 <= i < |shape| - 1 ensures Strides(shape, bytes)[1..][i] == Strides(shape[1..], bytes)[i] {
      assert shape[1..][i + 1..] == shape[i + 2..];
    }
  }

  lemma {:induction false} DenseBelow(q: seq<int>, shape: seq<nat>)
    requires Below(q, shape)
    ensures 0 <= Dense(q, shape) < Prod(shape)
    decreases shape
  {
    if shape != [] {
      DenseBelow(q[1..], shape[1..]);
      RowInside(q[0], shape[0], Prod(shape[1..]), Dense(q[1..], shape[1..]));
    }
  }

  lemma RowInside(x: int, n: int, size: int, rest: int)
    requires 0 <= x < n && 0 <= rest < size
    ensures 0 <= x * size + rest < n * size
  {
    MulMono(0, x, size);
    MulMono(x + 1, n, size);
    assert (x + 1) * size == x * size + size;
  }

  lemma {:induction false} DenseInjective(q: seq<int>, q': seq<int>, shape: seq<nat>)
    requires Below(q, shape) && Below(q', shape) && Dense(q, shape) == Dense(q', shape)
    ensures q == q'
    decreases shape
  {
    if shape != [] {
      DenseBelow(q[1..], shape[1..]);
      DenseBelow(q'[1..], shape[1..]);
      DivModUnique(Dense(q, shape), Prod(shape[1..]), q[0], Dense(q[1..], shape[1..]));
      DivModUnique(Dense(q, shape), Prod(shape[1..]), q'[0], Dense(q'[1..], shape[1..]));
      DenseInjective(q[1..], q'[1..], shape[1..]);
      assert q == [q[0]] + q[1..] && q' == [q'[0]] + q'[1..];
    }
  }

  lemma {:induction false} DenseSurjective(k: int, shape: seq<nat>) returns (q: seq<int>)
    requires AllPositive(shape) && 0 <= k < Prod(shape)
    ensures Below(q, shape) && Dense(q, shape) == k
    decreases shape
  {
    if shape == [] {
      q := [];
    } else {
      var size := Prod(shape[1..]);
      ProdPositive(shape[1..]);
      DivModEq(k, size);
      DivBounds(k, size, 0, shape[0]);
      var rest := DenseSurjective(k % size, shape[1..]);
      q := [k / size] + rest;
      assert q[1..] == rest;
    }
  }

  /** Points that start a stick have stick-aligned addresses. */
  lemma {:induction false} StickAligned(q: seq<int>, shape: seq<nat>, bytes: nat, stick: nat)
    requires 0 < stick && |q| == |shape| > 0 && q[|q| - 1] == 0 && shape[|shape| - 1] * bytes == stick
    ensures Dot(q, Strides(shape, bytes)) % stick == 0
  {
    StridesTail(shape, bytes);
    var tail := Strides(shape, bytes)[1..];
    if |shape| == 1 {
      assert q[1..] == [] && tail == [];
    } else {
      StickAligned(q[1..], shape[1..], bytes, stick);
      StickVolume(shape[1..], bytes, stick);
      var n := Prod(shape[1..]) * bytes / stick;
      ExactDiv(Prod(shape[1..]) * bytes, stick);
      var k := Dot(q[1..], tail) / stick;
      ExactDiv(Dot(q[1..], tail), stick);
      SumOfMultiples(q[0], n, k, stick);
    }
  }

  lemma SumOfMultiples(a: int, n: int, k: int, d: int)
    requires 0 < d
    ensures (a * (n * d) + k * d) % d == 0
  {
    Distribute3(a, n, k, d);
    DivModUnique((a * n + k) * d, d, a * n + k, 0);
  }

  lemma {:induction false} StickVolume(shape: seq<nat>, bytes: nat, stick: nat)
    requires 0 < stick && |shape| > 0 && shape[|shape| - 1] * bytes == stick
    ensures Prod(shape) * bytes % stick == 0
  {
    var n := |shape| - 1;
    assert shape == shape[..n] + [shape[n]];
    ProdConcat(shape[..n], [shape[n]]);
    assert Prod([shape[n]]) == shape[n];
    assert Prod(shape) * bytes == Prod(shape[..n]) * stick;
    DivModUnique(Prod(shape[..n]) * stick, stick, Prod(shape[..n]), 0);
  }

  // --- Placed rectangles ---

  /** Point g lies in the rectangle of the given shape that starts at `start`. */
  predicate InSlice(g: seq<int>, start: seq<int>, shape: seq<nat>) {
    && |g| == |start| == |shape|
    && forall i :: 0 <= i < |g| ==> start[i] <= g[i] < start[i] + shape[i]
  }

  predicate IntervalsOverlap(aStart: int, aEnd: int, bStart: int, bEnd: int) {
    aStart < bEnd && bStart < aEnd
  }

  predicate Meets(a: seq<int>, aShape: seq<nat>, b: seq<int>, bShape: seq<nat>)
    requires |a| == |aShape| == |b| == |bShape|
  {
    forall i :: 0 <= i < |a| ==> IntervalsOverlap(a[i], a[i] + aShape[i], b[i], b[i] + bShape[i])
  }

  function ClipStart(a: seq<int>, b: seq<int>): (s: seq<int>)
    requires |a| == |b|
    ensures |s| == |a| && forall i :: 0 <= i < |a| ==> s[i] == Max(a[i], b[i])
  {
    seq(|a|, i requires 0 <= i < |a| => Max(a[i], b[i]))
  }

  function ClipWidths(a: seq<int>, aShape: seq<nat>, b: seq<int>, bShape: seq<nat>): (w: seq<nat>)
    requires |a| == |aShape| == |b| == |bShape| && AllPositive(aShape) && AllPositive(bShape)
    requires Meets(a, aShape, b, bShape)
    ensures |w| == |a|
    ensures forall i :: 0 <= i < |a| ==> 0 < w[i] == Min(a[i] + aShape[i], b[i] + bShape[i]) - Max(a[i], b[i])
  {
    seq(|a|, i requires 0 <= i < |a| => Min(a[i] + aShape[i], b[i] + bShape[i]) - Max(a[i], b[i]))
  }

  /** Rectangles overlap on every axis exactly when they share a point, and the
      clipped rectangle is what they share. */
  lemma MeetsShares(a: seq<int>, aShape: seq<nat>, b: seq<int>, bShape: seq<nat>)
    requires |a| == |aShape| == |b| == |bShape| && AllPositive(aShape) && AllPositive(bShape)
    ensures Meets(a, aShape, b, bShape) <==> exists g :: InSlice(g, a, aShape) && InSlice(g, b, bShape)
    ensures Meets(a, aShape, b, bShape) ==> forall g ::
              InSlice(g, ClipStart(a, b), ClipWidths(a, aShape, b, bShape)) <==>
              InSlice(g, a, aShape) && InSlice(g, b, bShape)
  {
    if Meets(a, aShape, b, bShape) {
      assert InSlice(ClipStart(a, b), a, aShape) && InSlice(ClipStart(a, b), b, bShape);
      forall g ensures InSlice(g, ClipStart(a, b), ClipWidths(a, aShape, b, bShape)) <==>
                       InSlice(g, a, aShape) && InSlice(g, b, bShape) {
        var s, w := ClipStart(a, b), ClipWidths(a, aShape, b, bShape);
        assert |g| == |a| ==> forall i :: 0 <= i < |a| ==>
          (s[i] <= g[i] < s[i] + w[i] <==> a[i] <= g[i] < a[i] + aShape[i] && b[i] <= g[i] < b[i] + bShape[i]);
      }
    }
  }
}
