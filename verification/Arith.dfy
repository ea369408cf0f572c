/** Integer facts the ownership geometry rests on: quotient and remainder,
    products of extents, and the pigeonhole principle. */
module Arith {
  /** Quotient and remainder are determined by the division equation. */
  lemma DivModUnique(x: int, d: int, q: int, r: int)
    requires 0 <= r < d
    requires x == q * d + r
    ensures x / d == q && x % d == r
  {
    var q', r' := x / d, x % d;
    assert x == q' * d + r';
    assert (q - q') * d == r' - r;
    if q > q' {
      MulMono(1, q - q', d);
    } else if q < q' {
      MulMono(q - q', -1, d);
    }
  }

  lemma MulMono(x: int, y: int, d: int)
    requires x <= y && 0 <= d
    ensures x * d <= y * d
  {
  }

  lemma MulPositive(x: int, y: int)
    requires 0 < x && 0 < y
    ensures 0 < x * y
  {
  }

  lemma MulSwap(a: int, b: int, c: int)
    ensures (a * b) * c == b * (a * c)
  {
  }

  lemma DivModEq(x: int, d: int)
    requires 0 < d
    ensures x == (x / d) * d + x % d && 0 <= x % d < d
  {
  }

  lemma DivMono(x: int, y: int, d: int)
    requires x <= y && 0 < d
    ensures x / d <= y / d
  {
    if y / d < x / d {
      MulMono(y / d + 1, x / d, d);
      DivModEq(x, d);
      DivModEq(y, d);
    }
  }

  /** The quotient lies between two multiples. */
  lemma DivBounds(x: int, d: int, lo: int, hi: int)
    requires 0 < d
    requires lo * d <= x < hi * d
    ensures lo <= x / d < hi
  {
    DivModEq(x, d);
    if x / d < lo {
      MulMono(x / d + 1, lo, d);
    }
    if hi <= x / d {
      MulMono(hi, x / d, d);
    }
  }

  lemma DivNonNeg(x: int, d: int)
    requires 0 <= x && 0 < d
    ensures 0 <= x / d <= x
  {
    DivModEq(x, d);
    if x / d < 0 {
      MulMono(x / d, -1, d);
    } else {
      MulMono(1, d, x / d);
    }
  }

  /** Block g of n equal blocks starts inside and divides back to g. */
  lemma BlockStart(g: int, size: int, n: int)
    requires 0 <= g < n && 0 < size
    ensures 0 <= g * size < size * n && g * size / size == g
  {
    MulMono(g, n - 1, size);
    MulMono(0, g, size);
    assert (n - 1) * size == size * n - size;
    DivModUnique(g * size, size, g, 0);
  }

  /** Two divisions in a row are one division by the product. */
  lemma DivDiv(x: int, a: int, b: int)
    requires 0 < a && 0 < b
    ensures 0 < a * b && x / a / b == x / (a * b)
  {
    MulPositive(a, b);
    var q := x / a / b;
    DivModEq(x, a);
    DivModEq(x / a, b);
    var r := (x / a) % b * a + x % a;
    assert x == q * (a * b) + r by {
      assert x == (q * b + (x / a) % b) * a + x % a;
      assert (q * b + (x / a) % b) * a == q * (a * b) + (x / a) % b * a;
    }
    MulMono((x / a) % b, b - 1, a);
    MulMono(0, (x / a) % b, a);
    assert (b - 1) * a == a * b - a;
    DivModUnique(x, a * b, q, r);
  }

  /** The remainder by a product splits into a digit and an inner remainder. */
  lemma ModProduct(x: int, a: int, b: int)
    requires 0 < a && 0 < b
    ensures 0 < a * b && x % (a * b) == (x / a) % b * a + x % a
  {
    DivDiv(x, a, b);
    DivModEq(x, a);
    DivModEq(x / a, b);
    DivModEq(x, a * b);
    var q := x / a / b;
    assert x == q * (a * b) + x % (a * b);
    assert (q * b + (x / a) % b) * a == q * (a * b) + (x / a) % b * a;
  }

  /** Taking the remainder by a multiple first does not change the remainder. */
  lemma ModMod(x: int, a: int, b: int)
    requires 0 < a && 0 < b
    ensures 0 < a * b && x % (a * b) % a == x % a
  {
    ModProduct(x, a, b);
    DivModUnique(x % (a * b), a, (x / a) % b, x % a);
  }

  /** A digit of the remainder is a digit of the value. */
  lemma DivOfMod(x: int, a: int, b: int)
    requires 0 < a && 0 < b
    ensures 0 < a * b && x % (a * b) / a == (x / a) % b
  {
    ModProduct(x, a, b);
    DivModUnique(x % (a * b), a, (x / a) % b, x % a);
  }

  ghost predicate Divides(d: int, n: int) {
    exists k :: n == d * k
  }

  lemma DividesMod(d: int, n: int)
    requires 0 < d
    ensures Divides(d, n) <==> n % d == 0
  {
    DivModEq(n, d);
    if n % d == 0 {
      assert n == d * (n / d);
    }
    if Divides(d, n) {
      var k :| n == d * k;
      DivModUnique(n, d, k, 0);
    }
  }

  lemma ExactDiv(n: int, d: int)
    requires 0 < d && n % d == 0
    ensures n == (n / d) * d && (0 < n ==> 0 < n / d)
  {
    DivModEq(n, d);
    if n / d <= 0 {
      MulMono(n / d, 0, d);
    }
  }

  /** Product of extents or splits (`math.prod`). */
  function Prod(s: seq<nat>): nat {
    if s == [] then 1 else s[0] * Prod(s[1..])
  }

  predicate AllPositive(s: seq<nat>) {
    forall i :: 0 <= i < |s| ==> 0 < s[i]
  }

  lemma {:induction false} ProdPositive(s: seq<nat>)
    ensures AllPositive(s) <==> 0 < Prod(s)
  {
    if s != [] {
      ProdPositive(s[1..]);
      if AllPositive(s) {
        MulPositive(s[0], Prod(s[1..]));
      }
      if 0 < Prod(s) {
        assert 0 < s[0] && 0 < Prod(s[1..]);
        forall i | 0 <= i < |s| ensures 0 < s[i] {
          if 0 < i { assert s[i] == s[1..][i - 1]; }
        }
      }
    }
  }

  lemma {:induction false} ProdConcat(s: seq<nat>, t: seq<nat>)
    ensures Prod(s + t) == Prod(s) * Prod(t)
  {
    if s == [] {
      assert s + t == t;
    } else {
      assert (s + t)[1..] == s[1..] + t;
      ProdConcat(s[1..], t);
      assert s[0] * (Prod(s[1..]) * Prod(t)) == (s[0] * Prod(s[1..])) * Prod(t);
    }
  }

  lemma ProdSnoc(s: seq<nat>, i: nat)
    requires i < |s|
    ensures Prod(s[..i + 1]) == Prod(s[..i]) * s[i]
  {
    assert s[..i + 1] == s[..i] + [s[i]];
    ProdConcat(s[..i], [s[i]]);
  }

  lemma ProdSplit(s: seq<nat>, i: nat)
    requires i <= |s|
    ensures Prod(s) == Prod(s[..i]) * Prod(s[i..])
  {
    assert s == s[..i] + s[i..];
    ProdConcat(s[..i], s[i..]);
  }

  function Without<T>(s: seq<T>, j: nat): seq<T>
    requires j < |s|
  {
    s[..j] + s[j + 1..]
  }

  lemma MultisetWithout<T>(s: seq<T>, j: nat)
    requires j < |s|
    ensures multiset(Without(s, j)) == multiset(s) - multiset{s[j]}
    ensures multiset(s) == multiset(Without(s, j)) + multiset{s[j]}
  {
    var a, b := s[..j], s[j + 1..];
    assert s == (a + [s[j]]) + b;
    assert multiset((a + [s[j]]) + b) == multiset(a + [s[j]]) + multiset(b);
    assert multiset(a + [s[j]]) == multiset(a) + multiset{s[j]};
    assert multiset(a + b) == multiset(a) + multiset(b);
  }

  lemma ProdWithout(s: seq<nat>, j: nat)
    requires j < |s|
    ensures Prod(s) == s[j] * Prod(Without(s, j))
  {
    ProdSnoc(s, j);
    ProdSplit(s, j + 1);
    ProdConcat(s[..j], s[j + 1..]);
    MulSwap(Prod(s[..j]), s[j], Prod(s[j + 1..]));
  }

  /** The product does not depend on the order of the factors. */
  lemma {:induction false} ProdPermutation(s: seq<nat>, t: seq<nat>)
    requires multiset(s) == multiset(t)
    ensures Prod(s) == Prod(t)
  {
    if s == [] {
      assert |t| == |multiset(t)| == 0;
    } else {
      assert s[0] in multiset(t);
      var j :| 0 <= j < |t| && t[j] == s[0];
      MultisetWithout(s, 0);
      MultisetWithout(t, j);
      ProdWithout(s, 0);
      ProdWithout(t, j);
      ProdPermutation(Without(s, 0), Without(t, j));
    }
  }

  predicate Distinct<T(==)>(s: seq<T>) {
    forall i, j :: 0 <= i < j < |s| ==> s[i] != s[j]
  }

  lemma HeadNotRepeated<T>(x: T, rest: seq<T>)
    requires Distinct([x] + rest)
    ensures x !in rest
  {
    var s := [x] + rest;
    forall i | 0 <= i < |rest| ensures rest[i] != x {
      assert s[0] == x && s[i + 1] == rest[i];
    }
  }

  /** The set of the values below n. */
  function Range(n: nat): (r: set<int>)
    ensures forall i :: i in r <==> 0 <= i < n
    ensures |r| == n
  {
    if n == 0 then {} else Range(n - 1) + {n - 1}
  }

  lemma {:induction false} DistinctSize<T>(s: seq<T>)
    requires Distinct(s)
    ensures |set x | x in s| == |s|
  {
    if s == [] {
      assert (set x | x in s) == {};
    } else {
      var n := |s| - 1;
      assert s == s[..n] + [s[n]];
      assert (set x | x in s) == (set x | x in s[..n]) + {s[n]};
      DistinctSize(s[..n]);
    }
  }

  lemma {:induction false} SubsetSize<T>(a: set<T>, b: set<T>)
    requires a <= b
    ensures |a| <= |b|
    ensures |a| == |b| ==> a == b
  {
    if a != {} {
      var x :| x in a;
      SubsetSize(a - {x}, b - {x});
      assert a == (a - {x}) + {x} && b == (b - {x}) + {x};
    }
  }

  lemma SingleElement<T>(s: set<T>)
    requires |s| == 1
    ensures exists x :: s == {x}
    ensures forall x, y :: x in s && y in s ==> x == y
  {
    var x :| x in s;
    assert |s - {x}| == 0;
    assert s == {x};
  }

  /** Pigeonhole: n distinct values below n are all the values below n. */
  lemma Pigeonhole(s: seq<int>, v: int)
    requires Distinct(s)
    requires forall i :: 0 <= i < |s| ==> 0 <= s[i] < |s|
    requires 0 <= v < |s|
    ensures v in s
  {
    var image := set x | x in s;
    DistinctSize(s);
    SubsetSize(image, Range(|s|));
    assert v in Range(|s|);
  }

  /** Some listing of a set, as `sorted` gives one. */
  method Listing<T(==)>(s: set<T>) returns (l: seq<T>)
    ensures Distinct(l) && |l| == |s| && forall d :: d in l <==> d in s
  {
    l := [];
    var todo := s;
    while todo != {}
      invariant todo <= s && Distinct(l) && |l| + |todo| == |s|
      invariant forall d :: d in l <==> d in s && d !in todo
    {
      var d :| d in todo;
      todo, l := todo - {d}, l + [d];
    }
  }

  function Min(a: int, b: int): int { if a < b then a else b }

  function Max(a: int, b: int): int { if a < b then b else a }

  function Flatten<T>(parts: seq<seq<T>>): seq<T> {
    if parts == [] then [] else Flatten(parts[..|parts| - 1]) + parts[|parts| - 1]
  }

  lemma {:induction false} InFlatten<T>(parts: seq<seq<T>>, x: T)
    ensures x in Flatten(parts) <==> exists i :: 0 <= i < |parts| && x in parts[i]
  {
    if parts != [] {
      InFlatten(parts[..|parts| - 1], x);
    }
  }

  lemma {:induction false} FlattenDistinct<T>(parts: seq<seq<T>>)
    requires forall i :: 0 <= i < |parts| ==> Distinct(parts[i])
    requires forall i, j, x :: 0 <= i < j < |parts| && x in parts[i] ==> x !in parts[j]
    ensures Distinct(Flatten(parts))
  {
    if parts != [] {
      var n := |parts| - 1;
      FlattenDistinct(parts[..n]);
      var before, last := Flatten(parts[..n]), parts[n];
      forall i, j | 0 <= i < |before| && 0 <= j < |last| ensures before[i] != last[j] {
        InFlatten(parts[..n], before[i]);
        assert last[j] in last;
      }
    }
  }

  lemma FlattenNext<T>(parts: seq<seq<T>>, part: seq<T>)
    ensures Flatten(parts + [part]) == Flatten(parts) + part
  {
    assert (parts + [part])[..|parts|] == parts;
  }
}
