/** The physical box of each loop partition (`_loop_regions` of
    `torch_spyre/_inductor/core_mapping.py`): endpoint arithmetic beside exact
    enumeration. */
module LoopRegions {
  import opened Arith
  import opened Radix
  import opened Wrappers

  /** The coordinate num*((x mod m) div den) + offset of loop value x. */
  datatype Term = Term(num: int, den: int, mod: int, offset: int)

  predicate ValidTerm(t: Term) {
    t.num != 0 && 0 < t.den && 0 < t.mod
  }

  function TermAt(t: Term, x: int): int
    requires ValidTerm(t)
  {
    t.num * (x % t.mod / t.den) + t.offset
  }

  /** An inclusive range of coordinates on one axis. */
  datatype Bound = Bound(low: int, high: int)

  function MinOver(f: int -> int, lo: int, hi: int): int
    requires lo <= hi
    decreases hi - lo
  {
    if lo == hi then f(lo) else Min(MinOver(f, lo, hi - 1), f(hi))
  }

  function MaxOver(f: int -> int, lo: int, hi: int): int
    requires lo <= hi
    decreases hi - lo
  {
    if lo == hi then f(lo) else Max(MaxOver(f, lo, hi - 1), f(hi))
  }

  /** `b` is exactly the range f takes on lo..hi. */
  ghost predicate Tight(f: int -> int, lo: int, hi: int, b: Bound) {
    && (forall p :: lo <= p <= hi ==> b.low <= f(p) <= b.high)
    && (exists p :: lo <= p <= hi && f(p) == b.low)
    && (exists p :: lo <= p <= hi && f(p) == b.high)
  }

  lemma {:induction false} OverTight(f: int -> int, lo: int, hi: int)
    requires lo <= hi
    ensures Tight(f, lo, hi, Bound(MinOver(f, lo, hi), MaxOver(f, lo, hi)))
    decreases hi - lo
  {
    if lo < hi {
      OverTight(f, lo, hi - 1);
      var p :| lo <= p <= hi - 1 && f(p) == MinOver(f, lo, hi - 1);
      var q :| lo <= q <= hi - 1 && f(q) == MaxOver(f, lo, hi - 1);
      assert lo <= p <= hi && lo <= q <= hi && lo <= hi <= hi;
    } else {
      assert f(lo) == MinOver(f, lo, hi);
    }
  }

  lemma TightUnique(f: int -> int, lo: int, hi: int, b: Bound, b': Bound)
    requires Tight(f, lo, hi, b) && Tight(f, lo, hi, b')
    ensures b == b'
  {
  }

  /** Bounds by enumerating every loop value. */
  function ExactBounds(coords: seq<int -> int>, lo: int, hi: int): (b: seq<Bound>)
    requires lo <= hi
    ensures |b| == |coords|
    ensures forall i :: 0 <= i < |coords| ==> b[i] == Bound(MinOver(coords[i], lo, hi), MaxOver(coords[i], lo, hi))
  {
    seq(|coords|, i requires 0 <= i < |coords| => Bound(MinOver(coords[i], lo, hi), MaxOver(coords[i], lo, hi)))
  }

  function Row(coords: seq<int -> int>, p: int): (row: seq<int>)
    ensures |row| == |coords| && forall i :: 0 <= i < |coords| ==> row[i] == coords[i](p)
  {
    seq(|coords|, i requires 0 <= i < |coords| => coords[i](p))
  }

  /** The points a partition touches, in loop order. */
  function Points(coords: seq<int -> int>, lo: int, hi: int): (ps: seq<seq<int>>)
    requires lo <= hi + 1
    ensures |ps| == hi + 1 - lo && forall k :: 0 <= k < |ps| ==> ps[k] == Row(coords, lo + k)
  {
    seq(hi + 1 - lo, k requires 0 <= k < hi + 1 - lo => Row(coords, lo + k))
  }

  /** Bounds from the partition's endpoints, modulo wrap included. */
  function TermBounds(t: Term, first: int, last: int): Bound
    requires ValidTerm(t)
  {
    var wraps := first / t.mod != last / t.mod;
    var low := if wraps then 0 else first % t.mod / t.den;
    var high := if wraps then (t.mod - 1) / t.den else last % t.mod / t.den;
    var a, b := t.num * low + t.offset, t.num * high + t.offset;
    Bound(Min(a, b), Max(a, b))
  }

  /** The digit of x runs over exactly low..high on first..last. */
  lemma DigitRange(den: int, mod: int, first: int, last: int, p: int)
    requires 0 < den && 0 < mod && first <= p <= last
    ensures first / mod == last / mod ==> first % mod / den <= p % mod / den <= last % mod / den
    ensures 0 <= p % mod / den <= (mod - 1) / den
  {
    DivModEq(first, mod);
    DivModEq(p, mod);
    DivModEq(last, mod);
    DivMono(p % mod, mod - 1, den);
    DivNonNeg(p % mod, den);
    if first / mod == last / mod {
      DivMono(first, p, mod);
      DivMono(p, last, mod);
      DivMono(first % mod, p % mod, den);
      DivMono(p % mod, last % mod, den);
    }
  }

  /** A partition that wraps touches both ends of the digit. */
  lemma WrapPoints(mod: int, first: int, last: int) returns (p: int)
    requires 0 < mod && first <= last && first / mod != last / mod
    ensures first <= p - 1 && p <= last && p % mod == 0 && (p - 1) % mod == mod - 1
  {
    var q := last / mod;
    p := q * mod;
    DivMono(first, last, mod);
    DivModEq(first, mod);
    DivModEq(last, mod);
    MulMono(first / mod + 1, q, mod);
    DivModUnique(p, mod, q, 0);
    assert p - 1 == (q - 1) * mod + (mod - 1);
    DivModUnique(p - 1, mod, q - 1, mod - 1);
  }

  lemma Scaled(num: int, a: int, b: int, offset: int)
    requires a <= b
    ensures 0 <= num ==> num * a + offset <= num * b + offset
    ensures num <= 0 ==> num * b + offset <= num * a + offset
  {
    if 0 <= num {
      MulMono(a, b, num);
    } else {
      MulMono(a, b, -num);
    }
  }

  /** The endpoint bounds are the exact bounds. */
  lemma TermBoundsTight(t: Term, f: int -> int, first: int, last: int)
    requires ValidTerm(t) && first <= last
    requires forall p :: first <= p <= last ==> f(p) == TermAt(t, p)
    ensures Tight(f, first, last, TermBounds(t, first, last))
  {
    var wraps := first / t.mod != last / t.mod;
    var low := if wraps then 0 else first % t.mod / t.den;
    var high := if wraps then (t.mod - 1) / t.den else last % t.mod / t.den;
    var atLow, atHigh := first, last;
    if wraps {
      var p := WrapPoints(t.mod, first, last);
      atLow, atHigh := p, p - 1;
      DivModUnique(0, t.den, 0, 0);
    }
    assert f(atLow) == t.num * low + t.offset && f(atHigh) == t.num * high + t.offset;
    DigitRange(t.den, t.mod, first, last, atLow);
    DigitRange(t.den, t.mod, first, last, atHigh);
    forall p | first <= p <= last ensures TermBounds(t, first, last).low <= f(p) <= TermBounds(t, first, last).high {
      DigitRange(t.den, t.mod, first, last, p);
      Scaled(t.num, low, p % t.mod / t.den, t.offset);
      Scaled(t.num, p % t.mod / t.den, high, t.offset);
    }
  }

  function InsertByDen(t: Term, ts: seq<Term>): (r: seq<Term>)
    ensures forall u :: u in r <==> u == t || u in ts
  {
    if ts == [] || t.den < ts[0].den then [t] + ts else [ts[0]] + InsertByDen(t, ts[1..])
  }

  /** `sorted(terms, key=den)`: stable, by increasing denominator. */
  function SortByDen(ts: seq<Term>): (r: seq<Term>)
    ensures forall u :: u in r <==> u in ts
  {
    if ts == [] then [] else InsertByDen(ts[|ts| - 1], SortByDen(ts[..|ts| - 1]))
  }

  /** Equal coordinates leave the loop value known modulo `k`. */
  ghost predicate Determines(ts: seq<Term>, k: int) {
    && 0 < k && (forall t :: t in ts ==> ValidTerm(t))
    && forall x, y :: (forall t :: t in ts ==> TermAt(t, x) == TermAt(t, y)) ==> x % k == y % k
  }

  /** One more quotient/remainder digit refines the known modulus. */
  lemma ChainStep(t: Term, k: int, x: int, y: int)
    requires ValidTerm(t) && 0 < k && k % t.den == 0 && t.mod % k == 0
    requires x % k == y % k && TermAt(t, x) == TermAt(t, y)
    ensures x % t.mod == y % t.mod
  {
    CancelTerm(t.num, x % t.mod / t.den, y % t.mod / t.den, t.offset);
    ExactDiv(k, t.den);
    ExactDiv(t.mod, k);
    var j, m := k / t.den, t.mod / k;
    // mod == m*k == (m*j)*den, so the inner remainder is that of x by den.
    assert t.mod == t.den * (m * j) by {
      assert m * (j * t.den) == t.den * (m * j);
    }
    MulPositive(m, j);
    ModMod(x, t.den, m * j);
    ModMod(y, t.den, m * j);
    assert k == t.den * j;
    ModMod(x, t.den, j);
    ModMod(y, t.den, j);
    DivModEq(x % t.mod, t.den);
    DivModEq(y % t.mod, t.den);
  }

  lemma CancelTerm(num: int, a: int, b: int, offset: int)
    requires num != 0 && num * a + offset == num * b + offset
    ensures a == b
  {
    if a < b {
      if num > 0 { MulMono(a + 1, b, num); } else { MulMono(a + 1, b, -num); }
    } else if b < a {
      if num > 0 { MulMono(b + 1, a, num); } else { MulMono(b + 1, a, -num); }
    }
  }

  /** The largest modulus a chain of quotient/remainder digits makes known. */
  method KnownModulus(terms: seq<Term>) returns (known: int)
    requires forall t :: t in terms ==> ValidTerm(t)
    ensures Determines(terms, known)
  {
    var chain := SortByDen(terms);
    known := 1;
    for i := 0 to |chain|
      invariant Determines(terms, known)
    {
      var t := chain[i];
      assert t in chain;
      if known % t.den == 0 && t.mod % known == 0 {
        forall x, y | forall u :: u in terms ==> TermAt(u, x) == TermAt(u, y) ensures x % t.mod == y % t.mod {
          assert TermAt(t, x) == TermAt(t, y);
          ChainStep(t, known, x, y);
        }
        known := t.mod;
      }
    }
  }

  predicate Ordered(bounds: seq<Bound>) {
    forall i :: 0 <= i < |bounds| ==> bounds[i].low <= bounds[i].high
  }

  function Widths(bounds: seq<Bound>): (w: seq<nat>)
    requires Ordered(bounds)
    ensures |w| == |bounds| && AllPositive(w)
  {
    seq(|bounds|, i requires 0 <= i < |bounds| => bounds[i].high - bounds[i].low + 1)
  }

  ghost predicate InBox(q: seq<int>, bounds: seq<Bound>) {
    && |q| == |bounds|
    && forall i :: 0 <= i < |q| ==> bounds[i].low <= q[i] <= bounds[i].high
  }

  function Offsets(q: seq<int>, bounds: seq<Bound>): (o: seq<int>)
    requires |q| == |bounds|
    ensures |o| == |q|
  {
    seq(|q|, i requires 0 <= i < |q| => q[i] - bounds[i].low)
  }

  /** The position of a point of the box when its points are numbered. */
  ghost function Rank(q: seq<int>, bounds: seq<Bound>): int
    requires Ordered(bounds) && InBox(q, bounds)
  {
    Compose(Offsets(q, bounds), Widths(bounds))
  }

  lemma RankBelow(q: seq<int>, bounds: seq<Bound>)
    requires Ordered(bounds) && InBox(q, bounds)
    ensures 0 <= Rank(q, bounds) < Prod(Widths(bounds))
    ensures Digits(Rank(q, bounds), Widths(bounds)) == Offsets(q, bounds)
  {
    DigitsCompose(Offsets(q, bounds), Widths(bounds));
  }

  lemma RankInjective(q: seq<int>, q': seq<int>, bounds: seq<Bound>)
    requires Ordered(bounds) && InBox(q, bounds) && InBox(q', bounds)
    requires Rank(q, bounds) == Rank(q', bounds)
    ensures q == q'
  {
    RankBelow(q, bounds);
    RankBelow(q', bounds);
    forall i | 0 <= i < |q| ensures q[i] == q'[i] {
      assert Offsets(q, bounds)[i] == Offsets(q', bounds)[i];
    }
  }

  /** Every number below the volume is the rank of a point of the box. */
  lemma RankSurjective(v: int, bounds: seq<Bound>) returns (q: seq<int>)
    requires Ordered(bounds) && 0 <= v < Prod(Widths(bounds))
    ensures InBox(q, bounds) && Rank(q, bounds) == v
  {
    var ds := Digits(v, Widths(bounds));
    DigitsBelow(v, Widths(bounds));
    ComposeDigits(v, Widths(bounds));
    q := seq(|bounds|, i requires 0 <= i < |bounds| => bounds[i].low + ds[i]);
    assert Offsets(q, bounds) == ds;
  }

  /** The points are distinct and are exactly the points of the box. */
  ghost predicate Fills(points: seq<seq<int>>, bounds: seq<Bound>) {
    Distinct(points) && forall q :: q in points <==> InBox(q, bounds)
  }

  ghost function Ranks(points: seq<seq<int>>, bounds: seq<Bound>): (r: seq<int>)
    requires Ordered(bounds) && forall i :: 0 <= i < |points| ==> InBox(points[i], bounds)
    ensures |r| == |points|
  {
    seq(|points|, i requires 0 <= i < |points| => Rank(points[i], bounds))
  }

  lemma RanksDistinct(points: seq<seq<int>>, bounds: seq<Bound>)
    requires Ordered(bounds) && forall i :: 0 <= i < |points| ==> InBox(points[i], bounds)
    requires Distinct(points)
    ensures Distinct(Ranks(points, bounds))
    ensures forall i :: 0 <= i < |points| ==> 0 <= Ranks(points, bounds)[i] < Prod(Widths(bounds))
  {
    var r := Ranks(points, bounds);
    forall i, j | 0 <= i < j < |points| ensures r[i] != r[j] {
      if r[i] == r[j] {
        RankInjective(points[i], points[j], bounds);
      }
    }
    forall i | 0 <= i < |points| ensures 0 <= r[i] < Prod(Widths(bounds)) {
      RankBelow(points[i], bounds);
    }
  }

  /** Pigeonhole: as many distinct points as the box has leave no hole in it. */
  lemma FullBox(points: seq<seq<int>>, bounds: seq<Bound>, q: seq<int>)
    requires Ordered(bounds) && forall i :: 0 <= i < |points| ==> InBox(points[i], bounds)
    requires Distinct(points) && Prod(Widths(bounds)) == |points|
    requires InBox(q, bounds)
    ensures q in points
  {
    var r := Ranks(points, bounds);
    RanksDistinct(points, bounds);
    RankBelow(q, bounds);
    Pigeonhole(r, Rank(q, bounds));
    var i :| 0 <= i < |r| && r[i] == Rank(q, bounds);
    RankInjective(points[i], q, bounds);
  }

  /** Filling the box takes exactly its volume. */
  lemma FilledVolume(points: seq<seq<int>>, bounds: seq<Bound>)
    requires Ordered(bounds) && Fills(points, bounds)
    ensures Prod(Widths(bounds)) == |points|
  {
    var volume := Prod(Widths(bounds));
    assert forall i :: 0 <= i < |points| ==> points[i] in points;
    var r := Ranks(points, bounds);
    RanksDistinct(points, bounds);
    DistinctSize(r);
    forall v | 0 <= v < volume ensures v in r {
      var q := RankSurjective(v, bounds);
      assert q in points;
      var i :| 0 <= i < |points| && points[i] == q;
      assert r[i] == v;
    }
    assert (set v | v in r) == Range(volume);
  }

  /** Distinctness and volume together are exactly "one-to-one onto the box". */
  lemma RectangleExactly(points: seq<seq<int>>, bounds: seq<Bound>)
    requires Ordered(bounds) && forall i :: 0 <= i < |points| ==> InBox(points[i], bounds)
    ensures Distinct(points) && Prod(Widths(bounds)) == |points| <==> Fills(points, bounds)
  {
    if Distinct(points) && Prod(Widths(bounds)) == |points| {
      forall q ensures q in points <==> InBox(q, bounds) {
        if InBox(q, bounds) {
          FullBox(points, bounds, q);
        }
      }
    } else if Fills(points, bounds) {
      FilledVolume(points, bounds);
    }
  }

  lemma ExactBoundsHold(coords: seq<int -> int>, lo: int, hi: int)
    requires lo <= hi
    ensures Ordered(ExactBounds(coords, lo, hi))
    ensures forall k :: 0 <= k < hi + 1 - lo ==> InBox(Points(coords, lo, hi)[k], ExactBounds(coords, lo, hi))
  {
    forall i | 0 <= i < |coords| ensures Tight(coords[i], lo, hi, ExactBounds(coords, lo, hi)[i]) {
      OverTight(coords[i], lo, hi);
    }
    forall k | 0 <= k < hi + 1 - lo ensures InBox(Points(coords, lo, hi)[k], ExactBounds(coords, lo, hi)) {
      var row := Points(coords, lo, hi)[k];
      assert row == Row(coords, lo + k);
    }
  }

  /** The parser's terms say what the coordinates are on the whole loop. */
  ghost predicate Parses(terms: seq<Term>, coords: seq<int -> int>, extent: int) {
    && |terms| == |coords|
    && (forall t :: t in terms ==> ValidTerm(t))
    && forall i, x :: 0 <= i < |terms| && 0 <= x < extent ==> coords[i](x) == TermAt(terms[i], x)
  }

  lemma EndpointBounds(terms: seq<Term>, coords: seq<int -> int>, extent: int, first: int, last: int, i: nat)
    requires Parses(terms, coords, extent) && 0 <= first <= last < extent && i < |terms|
    ensures TermBounds(terms[i], first, last) == ExactBounds(coords, first, last)[i]
  {
    OverTight(coords[i], first, last);
    TermBoundsTight(terms[i], coords[i], first, last);
    TightUnique(coords[i], first, last, TermBounds(terms[i], first, last), ExactBounds(coords, first, last)[i]);
  }

  /** A digit chain whose modulus covers the loop never repeats a point. */
  lemma ChainDistinct(terms: seq<Term>, coords: seq<int -> int>, extent: int, known: int, first: int, last: int)
    requires Parses(terms, coords, extent) && 0 <= first <= last < extent
    requires Determines(terms, known) && extent <= known
    ensures Distinct(Points(coords, first, last))
  {
    var ps := Points(coords, first, last);
    forall i, j | 0 <= i < j < |ps| ensures ps[i] != ps[j] {
      if ps[i] == ps[j] {
        SameRow(terms, coords, extent, known, first + i, first + j);
      }
    }
  }

  lemma SameRow(terms: seq<Term>, coords: seq<int -> int>, extent: int, known: int, x: int, y: int)
    requires Parses(terms, coords, extent) && 0 <= x < extent && 0 <= y < extent
    requires Determines(terms, known) && extent <= known
    requires Row(coords, x) == Row(coords, y)
    ensures x == y
  {
    forall t | t in terms ensures TermAt(t, x) == TermAt(t, y) {
      var k :| 0 <= k < |terms| && terms[k] == t;
      assert coords[k](x) == Row(coords, x)[k] == Row(coords, y)[k] == coords[k](y);
    }
    DivModUnique(x, known, 0, x);
    DivModUnique(y, known, 0, y);
  }

  predicate OnAxis(bounds: seq<Bound>, sizes: seq<int>)
    requires |bounds| == |sizes|
  {
    forall i :: 0 <= i < |bounds| ==> 0 <= bounds[i].low && bounds[i].high < sizes[i]
  }

  /** What a partition must satisfy: it stays on its axes, and a rectangle is
      filled one-to-one. */
  ghost predicate Accepts(coords: seq<int -> int>, sizes: seq<int>, first: int, last: int, rectangles: bool)
    requires |coords| == |sizes| && first <= last
  {
    && OnAxis(ExactBounds(coords, first, last), sizes)
    && (rectangles ==> Fills(Points(coords, first, last), ExactBounds(coords, first, last)))
  }

  lemma SlotInside(extent: int, split: int, slot: int)
    requires ValidLoop(extent, split) && 0 <= slot < split
    ensures var w := extent / split;
            0 < w && 0 <= slot * w <= (slot + 1) * w - 1 < extent && (slot + 1) * w - slot * w == w
  {
    var w := extent / split;
    ExactDiv(extent, split);
    MulMono(slot + 1, split, w);
    MulMono(0, slot, w);
    assert (slot + 1) * w == slot * w + w;
  }

  method EndpointRegion(coords: seq<int -> int>, terms: seq<Term>, first: int, last: int, ghost extent: int)
    returns (bounds: seq<Bound>)
    requires Parses(terms, coords, extent) && 0 <= first <= last < extent
    ensures bounds == ExactBounds(coords, first, last)
  {
    bounds := [];
    for i := 0 to |terms|
      invariant bounds == ExactBounds(coords, first, last)[..i]
    {
      EndpointBounds(terms, coords, extent, first, last, i);
      assert terms[i] in terms;
      bounds := bounds + [TermBounds(terms[i], first, last)];
    }
    assert ExactBounds(coords, first, last)[..|terms|] == ExactBounds(coords, first, last);
  }

  lemma AcceptsExactly(coords: seq<int -> int>, sizes: seq<int>, first: int, last: int, rectangles: bool)
    requires |coords| == |sizes| && first <= last
    ensures var bounds, points := ExactBounds(coords, first, last), Points(coords, first, last);
            && Ordered(bounds)
            && (Accepts(coords, sizes, first, last, rectangles) <==>
                  && OnAxis(bounds, sizes)
                  && (rectangles ==> Distinct(points) && Prod(Widths(bounds)) == last + 1 - first))
  {
    ExactBoundsHold(coords, first, last);
    RectangleExactly(Points(coords, first, last), ExactBounds(coords, first, last));
  }

  /** One partition: the bounds on every axis, or a rejection. */
  method PartitionRegion(coords: seq<int -> int>, terms: seq<Term>, analytic: bool, sizes: seq<int>, first: int, last: int,
                         rectangles: bool, ghost extent: int, ghost known: int)
    returns (r: Result<seq<Bound>>)
    requires |coords| == |sizes| && 0 <= first <= last < extent
    requires analytic ==> Parses(terms, coords, extent)
    requires analytic && rectangles ==> Determines(terms, known) && extent <= known
    ensures r.Ok? <==> Accepts(coords, sizes, first, last, rectangles)
    ensures r.Ok? ==> r.value == ExactBounds(coords, first, last)
  {
    var bounds := [];
    AcceptsExactly(coords, sizes, first, last, rectangles);
    if analytic {
      bounds := EndpointRegion(coords, terms, first, last, extent);
      if rectangles {
        ChainDistinct(terms, coords, extent, known, first, last);
      }
    } else {
      bounds := ExactBounds(coords, first, last);
      if rectangles && !Distinct(Points(coords, first, last)) {
        return Err;
      }
    }
    if !OnAxis(bounds, sizes) || (rectangles && Prod(Widths(bounds)) != last + 1 - first) {
      return Err;
    }
    r := Ok(bounds);
  }

  predicate ValidLoop(extent: int, split: int) {
    0 < split && 0 < extent && extent % split == 0
  }

  function SlotBounds(extent: int, coords: seq<int -> int>, split: int, slot: int): (b: seq<Bound>)
    requires ValidLoop(extent, split) && 0 <= slot < split
    ensures |b| == |coords|
  {
    SlotInside(extent, split, slot);
    ExactBounds(coords, slot * (extent / split), (slot + 1) * (extent / split) - 1)
  }

  ghost predicate SlotAccepted(extent: int, coords: seq<int -> int>, sizes: seq<int>, split: int, rectangles: bool, slot: int)
    requires ValidLoop(extent, split) && |coords| == |sizes| && 0 <= slot < split
  {
    SlotInside(extent, split, slot);
    Accepts(coords, sizes, slot * (extent / split), (slot + 1) * (extent / split) - 1, rectangles)
  }

  method SlotRegion(extent: int, coords: seq<int -> int>, terms: seq<Term>, analytic: bool, sizes: seq<int>, split: int,
                    rectangles: bool, slot: int, ghost known: int)
    returns (r: Result<seq<Bound>>)
    requires ValidLoop(extent, split) && |coords| == |sizes| && 0 <= slot < split
    requires analytic ==> Parses(terms, coords, extent)
    requires analytic && rectangles ==> Determines(terms, known) && extent <= known
    ensures r.Ok? <==> SlotAccepted(extent, coords, sizes, split, rectangles, slot)
    ensures r.Ok? ==> r.value == SlotBounds(extent, coords, split, slot)
  {
    SlotInside(extent, split, slot);
    var width := extent / split;
    r := PartitionRegion(coords, terms, analytic, sizes, slot * width, (slot + 1) * width - 1, rectangles, extent, known);
  }

  method Regions(extent: int, coords: seq<int -> int>, parsed: Option<seq<Term>>, sizes: seq<int>, split: int,
                 rectangles: bool)
    returns (r: Result<seq<seq<Bound>>>)
    requires ValidLoop(extent, split) && |coords| == |sizes|
    requires parsed.Some? ==> Parses(parsed.value, coords, extent)
    ensures r.Ok? <==> forall slot :: 0 <= slot < split ==> SlotAccepted(extent, coords, sizes, split, rectangles, slot)
    ensures r.Ok? ==> |r.value| == split && forall slot :: 0 <= slot < split ==>
              r.value[slot] == SlotBounds(extent, coords, split, slot)
  {
    var terms := if parsed.Some? then parsed.value else [];
    var known := KnownModulus(terms);
    var analytic := terms != [] && (!rectangles || known >= extent);
    var regions := [];
    for slot := 0 to split
      invariant |regions| == slot
      invariant forall s :: 0 <= s < slot ==> SlotAccepted(extent, coords, sizes, split, rectangles, s)
      invariant forall s :: 0 <= s < slot ==> regions[s] == SlotBounds(extent, coords, split, s)
    {
      var region := SlotRegion(extent, coords, terms, analytic, sizes, split, rectangles, slot, known);
      if region.Err? {
        return Err;
      }
      regions := regions + [region.value];
    }
    r := Ok(regions);
  }
}
