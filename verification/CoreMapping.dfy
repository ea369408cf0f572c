/** Mapping a work division onto physical cores
    (`torch_spyre/_inductor/core_mapping.py`): every mapping the compiler derives
    is a mixed-radix reading of the core number. */
module CoreMapping {
  import opened Arith
  import opened Radix
  import opened Wrappers
  import opened Ownership

  function Front<T>(s: seq<T>, k: nat): seq<T>
    requires k < |s|
  {
    [s[k]] + Without(s, k)
  }

  /** What is listed per dimension, in increasing significance: iteration-space
      order, with the caller's dimension moved first when it is really split. */
  function Arranged<T>(s: seq<T>, splits: seq<nat>, contiguous: Option<nat>): (t: seq<T>)
    requires |s| == |splits|
    requires contiguous.Some? ==> contiguous.value < |splits|
    ensures |t| == |s|
  {
    match contiguous
    case Some(k) => if splits[k] > 1 then Front(s, k) else s
    case None => s
  }

  lemma ArrangedPermutes<T>(s: seq<T>, splits: seq<nat>, contiguous: Option<nat>)
    requires |s| == |splits|
    requires contiguous.Some? ==> contiguous.value < |splits|
    ensures multiset(Arranged(s, splits, contiguous)) == multiset(s)
  {
    if contiguous.Some? {
      MultisetWithout(s, contiguous.value);
    }
  }

  lemma ArrangedFacts(dims: seq<Symbol>, splits: seq<nat>, contiguous: Option<nat>)
    requires |dims| == |splits| && 0 < Prod(splits)
    requires contiguous.Some? ==> contiguous.value < |splits|
    ensures Distinct(dims) ==> Distinct(Arranged(dims, splits, contiguous))
    ensures AllPositive(Arranged(splits, splits, contiguous))
  {
    ArrangedPermutes(dims, splits, contiguous);
    ArrangedPermutes(splits, splits, contiguous);
    DistinctMultiset(dims);
    DistinctMultiset(Arranged(dims, splits, contiguous));
    ProdPermutation(splits, Arranged(splits, splits, contiguous));
    ProdPositive(Arranged(splits, splits, contiguous));
  }

  /** The first `n` dimensions of `m` are digits of the core number. */
  ghost predicate RadixPrefix(m: SlotMap, dims: seq<Symbol>, splits: seq<nat>, n: nat) {
    && n <= |dims| == |splits| && AllPositive(splits)
    && m.Keys == (set d | d in dims[..n])
    && forall k, c :: 0 <= k < n ==> Eval(m[dims[k]], c) == Digits(c, splits)[k]
  }

  /** `m` reads the slot of the k-th dimension as the k-th mixed-radix digit of
      the core number, first dimension least significant. */
  ghost predicate IsRadixMap(m: SlotMap, dims: seq<Symbol>, splits: seq<nat>) {
    RadixPrefix(m, dims, splits, |dims|)
  }

  function SlotExpr(stride: pos, split: pos): Expr {
    if split == 1 then Lit(0)
    else if stride == 1 then Modulo(Core, split)
    else Modulo(FloorDiv(Core, stride), split)
  }

  lemma SlotExprValue(stride: pos, split: pos, c: int)
    ensures Eval(SlotExpr(stride, split), c) == c / stride % split
  {
    if split != 1 && stride != 1 {
      assert Eval(FloorDiv(Core, stride), c) == c / stride;
    }
  }

  lemma RadixStep(m: SlotMap, dims: seq<Symbol>, splits: seq<nat>, n: nat, stride: pos)
    requires RadixPrefix(m, dims, splits, n) && n < |dims| && Distinct(dims)
    requires stride == Prod(splits[..n])
    ensures RadixPrefix(m[dims[n] := SlotExpr(stride, splits[n])], dims, splits, n + 1)
  {
    var m' := m[dims[n] := SlotExpr(stride, splits[n])];
    assert dims[..n + 1] == dims[..n] + [dims[n]];
    forall k, c | 0 <= k < n + 1 ensures Eval(m'[dims[k]], c) == Digits(c, splits)[k] {
      if k == n {
        DigitAt(c, splits, n);
        SlotExprValue(stride, splits[n], c);
      } else {
        assert dims[k] in dims[..n];
      }
    }
  }

  method CoreToSliceMapping(dims: seq<Symbol>, splits: seq<nat>, cores: int, contiguous: Option<nat>)
    returns (r: Result<SlotMap>)
    requires contiguous.Some? ==> contiguous.value < |splits|
    ensures r.Ok? <==> |dims| == |splits| && 0 < Prod(splits) <= cores && cores % Prod(splits) == 0
    ensures r.Ok? && Distinct(dims) ==>
              IsRadixMap(r.value, Arranged(dims, splits, contiguous), Arranged(splits, splits, contiguous))
  {
    if |dims| != |splits| {
      return Err;
    }
    var logical := Prod(splits);
    // A zero product divides by zero in the source.
    if cores < logical || logical == 0 || cores % logical != 0 {
      return Err;
    }
    var orderedDims := Arranged(dims, splits, contiguous);
    var orderedSplits := Arranged(splits, splits, contiguous);
    ArrangedFacts(dims, splits, contiguous);
    var stride, m := 1, map[];
    for i := 0 to |orderedDims|
      invariant 0 < stride == Prod(orderedSplits[..i])
      invariant Distinct(dims) ==> RadixPrefix(m, orderedDims, orderedSplits, i)
    {
      if Distinct(dims) {
        RadixStep(m, orderedDims, orderedSplits, i, stride);
      }
      m := m[orderedDims[i] := SlotExpr(stride, orderedSplits[i])];
      ProdSnoc(orderedSplits, i);
      MulPositive(stride, orderedSplits[i]);
      stride := stride * orderedSplits[i];
    }
    r := Ok(m);
  }

  /** `dict(zip(dims, splits))`. */
  function ZipMap(dims: seq<Symbol>, splits: seq<nat>): (m: map<Symbol, nat>)
    requires |dims| == |splits|
    ensures m.Keys == set d | d in dims
  {
    if dims == [] then map[] else map[dims[0] := splits[0]] + ZipMap(dims[1..], splits[1..])
  }

  /** `splits.get(dim, 1)`: an absent dimension is not split. */
  function SplitOf(splitBy: map<Symbol, nat>, d: Symbol): nat {
    if d in splitBy then splitBy[d] else 1
  }

  function SplitsOf(dims: seq<Symbol>, splitBy: map<Symbol, nat>): (s: seq<nat>)
    ensures |s| == |dims|
  {
    seq(|dims|, i requires 0 <= i < |dims| => SplitOf(splitBy, dims[i]))
  }

  lemma SplitsOfConcat(ds: seq<Symbol>, es: seq<Symbol>, splitBy: map<Symbol, nat>)
    ensures SplitsOf(ds + es, splitBy) == SplitsOf(ds, splitBy) + SplitsOf(es, splitBy)
  {
  }

  lemma {:induction false} ZipMapAt(dims: seq<Symbol>, splits: seq<nat>)
    requires |dims| == |splits| && Distinct(dims)
    ensures forall i :: 0 <= i < |dims| ==> ZipMap(dims, splits)[dims[i]] == splits[i]
    ensures SplitsOf(dims, ZipMap(dims, splits)) == splits
  {
    if dims != [] {
      ZipMapAt(dims[1..], splits[1..]);
      forall i | 0 <= i < |dims|
        ensures dims[i] in ZipMap(dims, splits) && ZipMap(dims, splits)[dims[i]] == splits[i]
      {
        if 0 < i { assert dims[i] == dims[1..][i - 1]; }
      }
    }
  }

  function LocalDims(dims: seq<Symbol>, grouped: seq<Symbol>): (local: seq<Symbol>)
    ensures forall d :: d in local <==> d in dims && d !in grouped
  {
    if dims == [] then []
    else (if dims[0] in grouped then [] else [dims[0]]) + LocalDims(dims[1..], grouped)
  }

  lemma {:induction false} LocalDimsMultiset(dims: seq<Symbol>, grouped: seq<Symbol>, d: Symbol)
    ensures multiset(LocalDims(dims, grouped))[d] == if d in grouped then 0 else multiset(dims)[d]
  {
    if dims != [] {
      LocalDimsMultiset(dims[1..], grouped, d);
      assert dims == [dims[0]] + dims[1..];
    }
  }

  lemma {:induction false} DistinctMultiset<T>(s: seq<T>)
    ensures Distinct(s) <==> forall x :: multiset(s)[x] <= 1
  {
    if s != [] {
      var n := |s| - 1;
      DistinctMultiset(s[..n]);
      assert s == s[..n] + [s[n]];
      if Distinct(s) {
        assert s[n] !in multiset(s[..n]);
      } else if Distinct(s[..n]) {
        assert s[n] in multiset(s[..n]);
        assert multiset(s)[s[n]] == multiset(s[..n])[s[n]] + 1;
      } else {
        var x :| multiset(s[..n])[x] > 1;
        assert multiset(s)[x] > 1;
      }
    }
  }

  /** Group dimensions and the rest together are the operation's dimensions. */
  lemma LocalAndGrouped(dims: seq<Symbol>, grouped: seq<Symbol>)
    requires Distinct(dims) && Distinct(grouped)
    requires forall d :: d in grouped ==> d in dims
    ensures multiset(LocalDims(dims, grouped) + grouped) == multiset(dims)
    ensures Distinct(LocalDims(dims, grouped))
  {
    DistinctMultiset(dims);
    DistinctMultiset(grouped);
    var local := LocalDims(dims, grouped);
    forall d
      ensures multiset(local + grouped)[d] == multiset(dims)[d] && multiset(local)[d] <= 1
    {
      LocalDimsMultiset(dims, grouped, d);
      assert multiset(local + grouped) == multiset(local) + multiset(grouped);
      if d in grouped {
        assert d in multiset(grouped) && d in multiset(dims);
      } else {
        assert d !in multiset(grouped);
      }
    }
    DistinctMultiset(local);
  }

  lemma SplitsWithout(dims: seq<Symbol>, splitBy: map<Symbol, nat>, j: nat)
    requires j < |dims|
    ensures multiset(SplitsOf(dims, splitBy))
         == multiset(SplitsOf(Without(dims, j), splitBy)) + multiset{SplitOf(splitBy, dims[j])}
  {
    MultisetWithout(SplitsOf(dims, splitBy), j);
    assert SplitsOf(Without(dims, j), splitBy) == Without(SplitsOf(dims, splitBy), j);
  }

  lemma {:induction false} SplitsPermute(ds: seq<Symbol>, es: seq<Symbol>, splitBy: map<Symbol, nat>)
    requires multiset(ds) == multiset(es)
    ensures multiset(SplitsOf(ds, splitBy)) == multiset(SplitsOf(es, splitBy))
  {
    if ds == [] {
      assert |es| == |multiset(es)| == 0;
    } else {
      assert ds[0] in multiset(es);
      var j :| 0 <= j < |es| && es[j] == ds[0];
      MultisetWithout(ds, 0);
      MultisetWithout(es, j);
      SplitsPermute(Without(ds, 0), Without(es, j), splitBy);
      SplitsWithout(ds, splitBy, 0);
      SplitsWithout(es, splitBy, j);
    }
  }

  function IndexOf(dims: seq<Symbol>, d: Symbol): (i: nat)
    requires d in dims
    ensures i < |dims| && dims[i] == d
  {
    if dims[0] == d then 0 else 1 + IndexOf(dims[1..], d)
  }

  function IndexIn(dims: seq<Symbol>, d: Option<Symbol>): (i: Option<nat>)
    ensures i.Some? ==> i.value < |dims|
  {
    if d.Some? && d.value in dims then Some(IndexOf(dims, d.value)) else None
  }

  /** The dimensions in increasing significance: the undivided groups inside,
      with the contiguous dimension innermost, and the group topology outside. */
  function DerivedOrder(dims: seq<Symbol>, splitBy: map<Symbol, nat>, contiguous: Option<Symbol>,
                        grouped: seq<Symbol>): seq<Symbol>
  {
    var local := LocalDims(dims, grouped);
    Arranged(local, SplitsOf(local, splitBy), IndexIn(local, contiguous)) + grouped
  }

  lemma ArrangedSplits(dims: seq<Symbol>, splitBy: map<Symbol, nat>, contiguous: Option<nat>)
    requires contiguous.Some? ==> contiguous.value < |dims|
    ensures var splits := SplitsOf(dims, splitBy);
            SplitsOf(Arranged(dims, splits, contiguous), splitBy) == Arranged(splits, splits, contiguous)
  {
  }

  /** The derived order lists every dimension of the operation once. */
  lemma DerivedOrderPermutes(dims: seq<Symbol>, splitBy: map<Symbol, nat>, contiguous: Option<Symbol>,
                             grouped: seq<Symbol>)
    requires Distinct(dims) && Distinct(grouped)
    requires forall d :: d in grouped ==> d in dims
    ensures multiset(DerivedOrder(dims, splitBy, contiguous, grouped)) == multiset(dims)
    ensures Distinct(DerivedOrder(dims, splitBy, contiguous, grouped))
    ensures forall d :: d in DerivedOrder(dims, splitBy, contiguous, grouped) <==> d in dims
  {
    var local := LocalDims(dims, grouped);
    var derived := DerivedOrder(dims, splitBy, contiguous, grouped);
    LocalAndGrouped(dims, grouped);
    ArrangedPermutes(local, SplitsOf(local, splitBy), IndexIn(local, contiguous));
    assert multiset(derived) == multiset(local) + multiset(grouped);
    assert multiset(local + grouped) == multiset(local) + multiset(grouped);
    DistinctMultiset(dims);
    DistinctMultiset(derived);
    assert forall d :: d in derived <==> d in multiset(derived);
    assert forall d :: d in dims <==> d in multiset(dims);
  }

  /** A mapping of the groups and one of the cores inside a group read the
      quotient and the remainder by the group size. */
  lemma JoinRadixMaps(owner: SlotMap, grouped: seq<Symbol>, groupedSplits: seq<nat>,
                      inner: SlotMap, local: seq<Symbol>, localSplits: seq<nat>, size: pos)
    requires IsRadixMap(owner, grouped, groupedSplits) && IsRadixMap(inner, local, localSplits)
    requires size == Prod(localSplits)
    requires forall d :: d in local ==> d !in grouped
    ensures IsRadixMap(InGroups(owner, inner, size), local + grouped, localSplits + groupedSplits)
  {
    var m := InGroups(owner, inner, size);
    var dims, splits := local + grouped, localSplits + groupedSplits;
    assert grouped[..|grouped|] == grouped && local[..|local|] == local && dims[..|dims|] == dims;
    assert m.Keys == set d | d in dims;
    forall k, c | 0 <= k < |dims| ensures Eval(m[dims[k]], c) == Digits(c, splits)[k] {
      DigitsConcat(c, localSplits, groupedSplits);
      if k < |local| {
        assert dims[k] == local[k] && local[k] in local;
        EvalSubst(inner[local[k]], Modulo(Core, size), c);
      } else {
        assert dims[k] == grouped[k - |local|] && grouped[k - |local|] in grouped;
        EvalSubst(owner[grouped[k - |local|]], FloorDiv(Core, size), c);
      }
    }
  }

  lemma JoinInOrder(owner: SlotMap, grouped: seq<Symbol>, inner: SlotMap, local: seq<Symbol>,
                    splitBy: map<Symbol, nat>, size: pos)
    requires forall d :: d in local ==> d !in grouped
    requires IsRadixMap(owner, grouped, SplitsOf(grouped, splitBy))
    requires IsRadixMap(inner, local, SplitsOf(local, splitBy))
    requires size == Prod(SplitsOf(local, splitBy))
    ensures IsRadixMap(InGroups(owner, inner, size), local + grouped, SplitsOf(local + grouped, splitBy))
  {
    JoinRadixMaps(owner, grouped, SplitsOf(grouped, splitBy), inner, local, SplitsOf(local, splitBy), size);
    SplitsOfConcat(local, grouped, splitBy);
  }

  function InGroups(owner: SlotMap, inner: SlotMap, size: pos): SlotMap {
    (map d | d in owner :: Subst(owner[d], FloorDiv(Core, size)))
    + (map d | d in inner :: Subst(inner[d], Modulo(Core, size)))
  }

  /** The grouped splits name dimensions of the operation with their own split. */
  predicate GroupsMatch(splitBy: map<Symbol, nat>, grouped: seq<Symbol>, groupedSplits: seq<nat>) {
    && |grouped| == |groupedSplits|
    && forall i :: 0 <= i < |grouped| ==> grouped[i] in splitBy && SplitOf(splitBy, grouped[i]) == groupedSplits[i]
  }

  lemma GroupProduct(dims: seq<Symbol>, splitBy: map<Symbol, nat>, grouped: seq<Symbol>, groupedSplits: seq<nat>)
    requires Distinct(dims) && Distinct(grouped)
    requires splitBy.Keys == set d | d in dims
    requires GroupsMatch(splitBy, grouped, groupedSplits)
    ensures Prod(SplitsOf(LocalDims(dims, grouped), splitBy)) * Prod(groupedSplits) == Prod(SplitsOf(dims, splitBy))
  {
    var local := LocalDims(dims, grouped);
    assert forall d :: d in grouped ==> d in dims;
    LocalAndGrouped(dims, grouped);
    SplitsPermute(local + grouped, dims, splitBy);
    ProdPermutation(SplitsOf(local + grouped, splitBy), SplitsOf(dims, splitBy));
    assert SplitsOf(grouped, splitBy) == groupedSplits;
    SplitsOfConcat(local, grouped, splitBy);
    ProdConcat(SplitsOf(local, splitBy), groupedSplits);
  }

  lemma GroupCounts(cores: nat, owners: nat, size: nat)
    requires size * owners == cores
    ensures 0 < owners ==> cores / owners == size && cores % owners == 0
    ensures 0 < cores <==> 0 < owners && 0 < size
  {
    if 0 < owners {
      DivModUnique(cores, owners, size, 0);
    }
  }

  lemma {:induction false} NoGroups(dims: seq<Symbol>)
    ensures LocalDims(dims, []) == dims
  {
    if dims != [] {
      NoGroups(dims[1..]);
    }
  }

  /** The mapping a derivation must return: the radix reading of its order. */
  ghost predicate IsDerived(m: SlotMap, dims: seq<Symbol>, splitBy: map<Symbol, nat>, contiguous: Option<Symbol>,
                            grouped: seq<Symbol>)
  {
    var order := DerivedOrder(dims, splitBy, contiguous, grouped);
    IsRadixMap(m, order, SplitsOf(order, splitBy))
  }

  lemma UngroupedIsDerived(m: SlotMap, dims: seq<Symbol>, splitBy: map<Symbol, nat>, contiguous: Option<Symbol>)
    requires splitBy.Keys == set d | d in dims
    requires var splits, at := SplitsOf(dims, splitBy), IndexIn(dims, contiguous);
             IsRadixMap(m, Arranged(dims, splits, at), Arranged(splits, splits, at))
    ensures IsDerived(m, dims, splitBy, contiguous, [])
  {
    NoGroups(dims);
    ArrangedSplits(dims, splitBy, IndexIn(dims, contiguous));
    var ordered := Arranged(dims, SplitsOf(dims, splitBy), IndexIn(dims, contiguous));
    assert ordered + [] == ordered;
  }

  lemma GroupedIsDerived(dims: seq<Symbol>, splitBy: map<Symbol, nat>, contiguous: Option<Symbol>,
                         grouped: seq<Symbol>, groupedSplits: seq<nat>, owner: SlotMap, inner: SlotMap, size: pos)
    requires splitBy.Keys == set d | d in dims
    requires GroupsMatch(splitBy, grouped, groupedSplits)
    requires IsRadixMap(owner, grouped, groupedSplits)
    requires var local := LocalDims(dims, grouped);
             var splits, at := SplitsOf(local, splitBy), IndexIn(local, contiguous);
             && IsRadixMap(inner, Arranged(local, splits, at), Arranged(splits, splits, at))
             && size == Prod(splits)
    ensures IsDerived(InGroups(owner, inner, size), dims, splitBy, contiguous, grouped)
  {
    var local := LocalDims(dims, grouped);
    var splits, at := SplitsOf(local, splitBy), IndexIn(local, contiguous);
    var ordered := Arranged(local, splits, at);
    ArrangedSplits(local, splitBy, at);
    ArrangedPermutes(splits, splits, at);
    ArrangedPermutes(local, splits, at);
    ProdPermutation(Arranged(splits, splits, at), splits);
    assert forall d :: d in ordered ==> d in multiset(ordered);
    assert SplitsOf(grouped, splitBy) == groupedSplits;
    JoinInOrder(owner, grouped, inner, ordered, splitBy, size);
  }

  /** `dims` and `grouped` are dictionary keys, so neither repeats. */
  method DeriveCoreMapping(dims: seq<Symbol>, splits: seq<nat>, cores: int, contiguous: Option<Symbol>,
                           grouped: seq<Symbol>, groupedSplits: seq<nat>)
    returns (r: Result<SlotMap>)
    requires Distinct(dims) && Distinct(grouped) && |grouped| == |groupedSplits|
    ensures r.Ok? <==> |dims| == |splits| && 0 < Prod(splits) == cores
                       && GroupsMatch(ZipMap(dims, splits), grouped, groupedSplits)
    ensures r.Ok? ==> IsDerived(r.value, dims, ZipMap(dims, splits), contiguous, grouped)
    ensures r.Ok? ==> OneCorePerSlice(r.value, ZipMap(dims, splits), cores)
    ensures r.Ok? ==> GroupsAreBlocks(r.value, grouped, groupedSplits, cores)
    ensures r.Ok? && contiguous.Some? && contiguous.value in dims && contiguous.value !in grouped
            && ZipMap(dims, splits)[contiguous.value] > 1 ==>
              Adjacent(r.value, contiguous.value, ZipMap(dims, splits)[contiguous.value], cores)
  {
    if |dims| != |splits| {
      return Err;
    }
    var splitBy := ZipMap(dims, splits);
    ZipMapAt(dims, splits);
    if Prod(splits) != cores || !GroupsMatch(splitBy, grouped, groupedSplits) {
      return Err;
    }
    if grouped == [] {
      r := CoreToSliceMapping(dims, splits, cores, IndexIn(dims, contiguous));
      if r.Ok? {
        UngroupedIsDerived(r.value, dims, splitBy, contiguous);
      }
    } else {
      r := DeriveInGroups(dims, splitBy, cores, contiguous, grouped, groupedSplits);
    }
    if r.Ok? {
      DerivedGeometry(r.value, dims, splitBy, contiguous, grouped, groupedSplits);
    }
  }

  /** The grouped case: owners occupy equal-size blocks of cores, and the other
      dimensions divide the work inside one block. */
  method DeriveInGroups(dims: seq<Symbol>, splitBy: map<Symbol, nat>, cores: int, contiguous: Option<Symbol>,
                        grouped: seq<Symbol>, groupedSplits: seq<nat>)
    returns (r: Result<SlotMap>)
    requires Distinct(dims) && Distinct(grouped)
    requires splitBy.Keys == set d | d in dims
    requires cores == Prod(SplitsOf(dims, splitBy))
    requires GroupsMatch(splitBy, grouped, groupedSplits)
    ensures r.Ok? <==> 0 < cores
    ensures r.Ok? ==> IsDerived(r.value, dims, splitBy, contiguous, grouped)
  {
    var local := LocalDims(dims, grouped);
    var localSplits := SplitsOf(local, splitBy);
    var owners := Prod(groupedSplits);
    GroupProduct(dims, splitBy, grouped, groupedSplits);
    GroupCounts(cores, owners, Prod(localSplits));
    if owners == 0 || cores % owners != 0 {
      return Err;
    }
    var size := cores / owners;
    if Prod(localSplits) != size {
      return Err;
    }
    var owner := CoreToSliceMapping(grouped, groupedSplits, owners, None);
    var inner := CoreToSliceMapping(local, localSplits, size, IndexIn(local, contiguous));
    if owner.Err? || inner.Err? {
      return Err;
    }
    LocalAndGrouped(dims, grouped);
    GroupedIsDerived(dims, splitBy, contiguous, grouped, groupedSplits, owner.value, inner.value, size);
    r := Ok(InGroups(owner.value, inner.value, size));
  }

  ghost predicate ValidSlots(want: map<Symbol, int>, splitBy: map<Symbol, nat>) {
    && want.Keys == splitBy.Keys
    && forall d :: d in want ==> 0 <= want[d] < splitBy[d]
  }

  /** The mapping is a bijection between the cores and the slot tuples. */
  ghost predicate OneCorePerSlice(m: SlotMap, splitBy: map<Symbol, nat>, cores: int) {
    && (forall c :: 0 <= c < cores ==> ValidSlots(SlotsAt(m, c), splitBy))
    && (forall c, c' :: 0 <= c < cores && 0 <= c' < cores && SlotsAt(m, c) == SlotsAt(m, c') ==> c == c')
    && (forall want :: ValidSlots(want, splitBy) ==> exists c :: 0 <= c < cores && SlotsAt(m, c) == want)
  }

  /** Cores agree on the dimensions `ds` exactly when they lie in the same block
      of `size` consecutive cores. */
  ghost predicate OwnsBlocks(m: SlotMap, ds: set<Symbol>, size: pos, cores: int) {
    && ds <= m.Keys
    && forall c, c' :: 0 <= c < cores && 0 <= c' < cores ==>
         ((forall d :: d in ds ==> Eval(m[d], c) == Eval(m[d], c')) <==> c / size == c' / size)
  }

  lemma RadixValid(m: SlotMap, dims: seq<Symbol>, splitBy: map<Symbol, nat>, c: int)
    requires splitBy.Keys == set d | d in dims
    requires IsRadixMap(m, dims, SplitsOf(dims, splitBy))
    ensures ValidSlots(SlotsAt(m, c), splitBy)
  {
    DigitsBelow(c, SplitsOf(dims, splitBy));
    assert dims[..|dims|] == dims;
  }

  lemma RadixInjective(m: SlotMap, dims: seq<Symbol>, splits: seq<nat>, c: int, c': int)
    requires IsRadixMap(m, dims, splits)
    requires 0 <= c < Prod(splits) && 0 <= c' < Prod(splits)
    requires SlotsAt(m, c) == SlotsAt(m, c')
    ensures c == c'
  {
    forall k | 0 <= k < |dims| ensures Digits(c, splits)[k] == Digits(c', splits)[k] {
      assert dims[k] in dims[..|dims|];
      assert SlotsAt(m, c)[dims[k]] == SlotsAt(m, c')[dims[k]];
    }
    DigitsInjective(c, c', splits);
  }

  lemma RadixSurjective(m: SlotMap, dims: seq<Symbol>, splitBy: map<Symbol, nat>, want: map<Symbol, int>)
    returns (c: int)
    requires splitBy.Keys == set d | d in dims
    requires IsRadixMap(m, dims, SplitsOf(dims, splitBy))
    requires ValidSlots(want, splitBy)
    ensures 0 <= c < Prod(SplitsOf(dims, splitBy)) && SlotsAt(m, c) == want
  {
    var splits := SplitsOf(dims, splitBy);
    var digits := seq(|dims|, i requires 0 <= i < |dims| => want[dims[i]]);
    DigitsCompose(digits, splits);
    c := Compose(digits, splits);
    assert dims[..|dims|] == dims;
    forall d | d in want ensures d in m && Eval(m[d], c) == want[d] {
      var k :| 0 <= k < |dims| && dims[k] == d;
      assert Digits(c, splits)[k] == digits[k];
    }
  }

  lemma RadixBijective(m: SlotMap, dims: seq<Symbol>, splitBy: map<Symbol, nat>)
    requires splitBy.Keys == set d | d in dims
    requires IsRadixMap(m, dims, SplitsOf(dims, splitBy))
    ensures OneCorePerSlice(m, splitBy, Prod(SplitsOf(dims, splitBy)))
  {
    var splits := SplitsOf(dims, splitBy);
    var cores := Prod(splits);
    forall c | 0 <= c < cores ensures ValidSlots(SlotsAt(m, c), splitBy) {
      RadixValid(m, dims, splitBy, c);
    }
    forall c, c' | 0 <= c < cores && 0 <= c' < cores && SlotsAt(m, c) == SlotsAt(m, c') ensures c == c' {
      RadixInjective(m, dims, splits, c, c');
    }
    forall want | ValidSlots(want, splitBy) ensures exists c :: 0 <= c < cores && SlotsAt(m, c) == want {
      var c := RadixSurjective(m, dims, splitBy, want);
    }
  }

  /** The outer digits are constant exactly on the blocks of the inner product. */
  lemma OuterBlocks(m: SlotMap, inner: seq<Symbol>, innerSplits: seq<nat>, outer: seq<Symbol>, outerSplits: seq<nat>)
    requires |inner| == |innerSplits|
    requires IsRadixMap(m, inner + outer, innerSplits + outerSplits)
    ensures 0 < Prod(innerSplits)
    ensures OwnsBlocks(m, (set d | d in outer), Prod(innerSplits), Prod(innerSplits + outerSplits))
  {
    var size, cores := Prod(innerSplits), Prod(innerSplits + outerSplits);
    var dims, splits := inner + outer, innerSplits + outerSplits;
    assert dims[..|dims|] == dims;
    assert AllPositive(innerSplits) by {
      assert forall i :: 0 <= i < |innerSplits| ==> splits[i] == innerSplits[i];
    }
    assert AllPositive(outerSplits) by {
      assert forall i :: 0 <= i < |outerSplits| ==> splits[|innerSplits| + i] == outerSplits[i];
    }
    ProdPositive(innerSplits);
    ProdConcat(innerSplits, outerSplits);
    forall c, c' | 0 <= c < cores && 0 <= c' < cores
      ensures (forall d :: d in outer ==> Eval(m[d], c) == Eval(m[d], c')) <==> c / size == c' / size
    {
      OuterDigits(m, inner, innerSplits, outer, outerSplits, c);
      OuterDigits(m, inner, innerSplits, outer, outerSplits, c');
      DivBounds(c, size, 0, Prod(outerSplits));
      DivBounds(c', size, 0, Prod(outerSplits));
      if forall d :: d in outer ==> Eval(m[d], c) == Eval(m[d], c') {
        assert Digits(c / size, outerSplits) == Digits(c' / size, outerSplits);
        DigitsInjective(c / size, c' / size, outerSplits);
      }
    }
  }

  lemma OuterDigits(m: SlotMap, inner: seq<Symbol>, innerSplits: seq<nat>, outer: seq<Symbol>,
                    outerSplits: seq<nat>, c: int)
    requires |inner| == |innerSplits| && AllPositive(innerSplits) && AllPositive(outerSplits)
    requires 0 < Prod(innerSplits)
    requires IsRadixMap(m, inner + outer, innerSplits + outerSplits)
    ensures |outer| == |outerSplits|
    ensures forall k :: 0 <= k < |outer| ==>
              outer[k] in m && Eval(m[outer[k]], c) == Digits(c / Prod(innerSplits), outerSplits)[k]
  {
    var dims, splits := inner + outer, innerSplits + outerSplits;
    DigitsConcat(c, innerSplits, outerSplits);
    forall k | 0 <= k < |outer|
      ensures outer[k] in m && Eval(m[outer[k]], c) == Digits(c / Prod(innerSplits), outerSplits)[k]
    {
      assert dims[|inner| + k] == outer[k];
      assert dims[|inner| + k] in dims[..|dims|];
      assert Eval(m[dims[|inner| + k]], c) == Digits(c, splits)[|inner| + k];
    }
  }

  /** The grouped dimensions occupy contiguous, equal-size blocks of cores. */
  ghost predicate GroupsAreBlocks(m: SlotMap, grouped: seq<Symbol>, groupedSplits: seq<nat>, cores: int) {
    var owners := Prod(groupedSplits);
    && 0 < owners && cores % owners == 0 && 0 < cores / owners
    && OwnsBlocks(m, (set d | d in grouped), cores / owners, cores)
  }

  /** The participants of `d` are adjacent cores: they count through the slots of
      `d` while every other dimension stays put. */
  ghost predicate Adjacent(m: SlotMap, d: Symbol, split: nat, cores: int) {
    && d in m && 0 < split
    && (forall c :: Eval(m[d], c) == c % split)
    && OwnsBlocks(m, m.Keys - {d}, split, cores)
  }

  lemma DerivedGeometry(m: SlotMap, dims: seq<Symbol>, splitBy: map<Symbol, nat>, contiguous: Option<Symbol>,
                        grouped: seq<Symbol>, groupedSplits: seq<nat>)
    requires Distinct(dims) && Distinct(grouped)
    requires splitBy.Keys == set d | d in dims
    requires GroupsMatch(splitBy, grouped, groupedSplits)
    requires IsDerived(m, dims, splitBy, contiguous, grouped)
    ensures var cores := Prod(SplitsOf(dims, splitBy));
            && OneCorePerSlice(m, splitBy, cores)
            && GroupsAreBlocks(m, grouped, groupedSplits, cores)
            && (contiguous.Some? && contiguous.value in dims && contiguous.value !in grouped
                && splitBy[contiguous.value] > 1 ==>
                  Adjacent(m, contiguous.value, splitBy[contiguous.value], cores))
  {
    var order := DerivedOrder(dims, splitBy, contiguous, grouped);
    var cores := Prod(SplitsOf(dims, splitBy));
    DerivedOrderPermutes(dims, splitBy, contiguous, grouped);
    SplitsPermute(order, dims, splitBy);
    ProdPermutation(SplitsOf(order, splitBy), SplitsOf(dims, splitBy));
    RadixBijective(m, order, splitBy);
    DerivedBlocks(m, dims, splitBy, contiguous, grouped, groupedSplits);
    if contiguous.Some? && contiguous.value in dims && contiguous.value !in grouped
       && splitBy[contiguous.value] > 1 {
      DerivedAdjacent(m, dims, splitBy, contiguous.value, grouped);
    }
  }

  lemma DerivedBlocks(m: SlotMap, dims: seq<Symbol>, splitBy: map<Symbol, nat>, contiguous: Option<Symbol>,
                      grouped: seq<Symbol>, groupedSplits: seq<nat>)
    requires splitBy.Keys == set d | d in dims
    requires GroupsMatch(splitBy, grouped, groupedSplits)
    requires IsDerived(m, dims, splitBy, contiguous, grouped)
    ensures var order := DerivedOrder(dims, splitBy, contiguous, grouped);
            GroupsAreBlocks(m, grouped, groupedSplits, Prod(SplitsOf(order, splitBy)))
  {
    var local := LocalDims(dims, grouped);
    var ordered := Arranged(local, SplitsOf(local, splitBy), IndexIn(local, contiguous));
    var splits := SplitsOf(ordered + grouped, splitBy);
    SplitsOfConcat(ordered, grouped, splitBy);
    assert SplitsOf(grouped, splitBy) == groupedSplits;
    OuterBlocks(m, ordered, SplitsOf(ordered, splitBy), grouped, groupedSplits);
    ProdConcat(SplitsOf(ordered, splitBy), groupedSplits);
    ProdPositive(splits);
    GroupCounts(Prod(splits), Prod(groupedSplits), Prod(SplitsOf(ordered, splitBy)));
  }

  lemma InnermostAdjacent(m: SlotMap, d: Symbol, rest: seq<Symbol>, split: nat, restSplits: seq<nat>)
    requires IsRadixMap(m, [d] + rest, [split] + restSplits)
    requires d !in rest
    ensures Adjacent(m, d, split, Prod([split] + restSplits))
  {
    var dims, splits := [d] + rest, [split] + restSplits;
    OuterBlocks(m, [d], [split], rest, restSplits);
    assert Prod([split]) == split;
    assert dims[..|dims|] == dims;
    assert m.Keys - {d} == set e | e in rest;
    forall c ensures Eval(m[d], c) == c % split {
      assert Eval(m[dims[0]], c) == Digits(c, splits)[0];
    }
  }

  lemma InnermostFirst(dims: seq<Symbol>, splitBy: map<Symbol, nat>, d: Symbol, grouped: seq<Symbol>)
    returns (rest: seq<Symbol>)
    requires d in dims && d !in grouped && SplitOf(splitBy, d) > 1
    ensures DerivedOrder(dims, splitBy, Some(d), grouped) == [d] + rest
  {
    var local := LocalDims(dims, grouped);
    var k := IndexOf(local, d);
    assert SplitsOf(local, splitBy)[k] == SplitOf(splitBy, d);
    assert Arranged(local, SplitsOf(local, splitBy), Some(k)) == [d] + Without(local, k);
    rest := Without(local, k) + grouped;
    assert [d] + Without(local, k) + grouped == [d] + rest;
  }

  lemma DerivedAdjacent(m: SlotMap, dims: seq<Symbol>, splitBy: map<Symbol, nat>, d: Symbol, grouped: seq<Symbol>)
    requires Distinct(dims) && Distinct(grouped)
    requires splitBy.Keys == set d | d in dims
    requires forall g :: g in grouped ==> g in dims
    requires d in dims && d !in grouped && splitBy[d] > 1
    requires IsDerived(m, dims, splitBy, Some(d), grouped)
    ensures var order := DerivedOrder(dims, splitBy, Some(d), grouped);
            Adjacent(m, d, splitBy[d], Prod(SplitsOf(order, splitBy)))
  {
    var rest := InnermostFirst(dims, splitBy, d, grouped);
    DerivedOrderPermutes(dims, splitBy, Some(d), grouped);
    HeadNotRepeated(d, rest);
    SplitsOfConcat([d], rest, splitBy);
    assert SplitsOf([d], splitBy) == [splitBy[d]];
    InnermostAdjacent(m, d, rest, splitBy[d], SplitsOf(rest, splitBy));
  }
}
