/** Contiguous owner groups of cores, and the orders a search can try
    (`derive_partition_mapping` of `torch_spyre/_inductor/core_mapping.py`). */
module PartitionMapping {
  import opened Arith
  import opened Radix
  import opened Wrappers
  import opened Ownership
  import opened CoreMapping

  const MAX_OWNER_PERMUTATION_DIMS := 5

  /** `itertools.permutations`, in its order: by the index of the first item. */
  function Permutations<T>(s: seq<T>): seq<seq<T>>
    decreases |s|, |s| + 1
  {
    if s == [] then [[]] else PermutationsFrom(s, 0)
  }

  function PermutationsFrom<T>(s: seq<T>, i: nat): seq<seq<T>>
    requires i <= |s|
    decreases |s|, |s| - i
  {
    if i == |s| then []
    else Prefixed(s[i], Permutations(Without(s, i))) + PermutationsFrom(s, i + 1)
  }

  function Prefixed<T>(x: T, ps: seq<seq<T>>): seq<seq<T>> {
    seq(|ps|, i requires 0 <= i < |ps| => [x] + ps[i])
  }

  lemma PrefixedHas<T>(x: T, ps: seq<seq<T>>, p: seq<T>)
    ensures p in Prefixed(x, ps) <==> p != [] && p[0] == x && p[1..] in ps
  {
    var qs := Prefixed(x, ps);
    if p in qs {
      var i :| 0 <= i < |qs| && qs[i] == p;
      assert p[1..] == ps[i];
    }
    if p != [] && p[0] == x && p[1..] in ps {
      var i :| 0 <= i < |ps| && ps[i] == p[1..];
      assert qs[i] == p;
    }
  }

  /** The permutations are exactly the rearrangements. */
  lemma {:induction false} PermutationsComplete<T>(s: seq<T>, p: seq<T>)
    ensures p in Permutations(s) <==> multiset(p) == multiset(s)
    decreases |s|, |s| + 1
  {
    if s == [] {
      if multiset(p) == multiset(s) {
        assert |p| == |multiset(p)| == 0;
      }
    } else {
      PermutationsFromComplete(s, 0, p);
      if multiset(p) == multiset(s) {
        assert |p| == |multiset(p)| == |multiset(s)| == |s|;
        assert p[0] in multiset(s);
        var j :| 0 <= j < |s| && s[j] == p[0];
      }
    }
  }

  /** The permutations that start with item i. */
  lemma {:induction false} PrefixedComplete<T>(s: seq<T>, i: nat, p: seq<T>)
    requires i < |s|
    ensures p in Prefixed(s[i], Permutations(Without(s, i))) <==>
              p != [] && p[0] == s[i] && multiset(p) == multiset(s)
    decreases |s|, 0
  {
    var rest := Without(s, i);
    PrefixedHas(s[i], Permutations(rest), p);
    MultisetWithout(s, i);
    if p != [] {
      PermutationsComplete(rest, p[1..]);
      MultisetWithout(p, 0);
      assert Without(p, 0) == p[1..];
    }
  }

  lemma {:induction false} PermutationsFromComplete<T>(s: seq<T>, i: nat, p: seq<T>)
    requires i <= |s|
    ensures p in PermutationsFrom(s, i) <==>
              multiset(p) == multiset(s) && p != [] && exists j :: i <= j < |s| && s[j] == p[0]
    decreases |s|, |s| - i
  {
    if i < |s| {
      PrefixedComplete(s, i, p);
      PermutationsFromComplete(s, i + 1, p);
    }
  }

  /** The slot of the k-th group dimension when the owners of `order` occupy
      contiguous, equal-size blocks of cores. */
  function GroupSlot(splits: seq<nat>, cores: nat, k: nat, c: int): int
    requires 0 < Prod(splits) <= cores && k < |splits|
  {
    ProdPositive(splits);
    DivBounds(cores, Prod(splits), 1, cores + 1);
    Digits(c / (cores / Prod(splits)), splits)[k]
  }

  /** Tensor owners read the group number, not the core number. */
  ghost predicate IsPartitionMap(m: SlotMap, dims: seq<Symbol>, splits: seq<nat>, cores: nat) {
    && |dims| == |splits| && 0 < Prod(splits) <= cores
    && m.Keys == (set d | d in dims)
    && forall k, c :: 0 <= k < |dims| ==> Eval(m[dims[k]], c) == GroupSlot(splits, cores, k, c)
  }

  method DerivePartitionMapping(dims: seq<Symbol>, splits: seq<nat>, cores: int) returns (r: Result<SlotMap>)
    ensures r.Ok? <==> |dims| == |splits| && 0 < Prod(splits) && 0 < cores && cores % Prod(splits) == 0
    ensures r.Ok? && Distinct(dims) ==> IsPartitionMap(r.value, dims, splits, cores)
  {
    var owners := Prod(splits);
    if owners == 0 || cores <= 0 || cores % owners != 0 {
      return Err;
    }
    ExactDiv(cores, owners);
    var size := cores / owners;
    MulMono(1, size, owners);
    r := CoreToSliceMapping(dims, splits, owners, None);
    if r.Ok? {
      var m := r.value;
      r := Ok(map d | d in m :: Subst(m[d], FloorDiv(Core, size)));
      if Distinct(dims) {
        assert dims[..|dims|] == dims;
        forall k, c | 0 <= k < |dims|
          ensures Eval(r.value[dims[k]], c) == GroupSlot(splits, cores, k, c)
        {
          assert dims[k] in dims;
          EvalSubst(m[dims[k]], FloorDiv(Core, size), c);
        }
      }
    }
  }

  /** Each slice of a partition is owned by one block of consecutive cores, and
      every slice has such a block. */
  ghost predicate PartitionBlocks(m: SlotMap, dims: seq<Symbol>, splits: seq<nat>, cores: nat) {
    && |dims| == |splits| && 0 < Prod(splits) <= cores && 0 < cores / Prod(splits)
    && OwnsBlocks(m, (set d | d in dims), cores / Prod(splits), cores)
    && forall want: seq<int> :: Below(want, splits) ==>
         exists c :: 0 <= c < cores && OwnsSlots(m, dims, want, c)
  }

  ghost predicate OwnsSlots(m: SlotMap, dims: seq<Symbol>, want: seq<int>, c: int)
    requires |want| == |dims|
  {
    forall k :: 0 <= k < |dims| ==> dims[k] in m && Eval(m[dims[k]], c) == want[k]
  }

  lemma PartitionSame(m: SlotMap, dims: seq<Symbol>, splits: seq<nat>, cores: nat, size: pos, c: int, c': int)
    requires IsPartitionMap(m, dims, splits, cores) && cores == size * Prod(splits) && size == cores / Prod(splits)
    requires 0 <= c < cores && 0 <= c' < cores
    ensures (forall d :: d in dims ==> Eval(m[d], c) == Eval(m[d], c')) <==> c / size == c' / size
  {
    ProdPositive(splits);
    DivBounds(c, size, 0, Prod(splits));
    DivBounds(c', size, 0, Prod(splits));
    if forall d :: d in dims ==> Eval(m[d], c) == Eval(m[d], c') {
      forall k | 0 <= k < |dims| ensures Digits(c / size, splits)[k] == Digits(c' / size, splits)[k] {
        assert GroupSlot(splits, cores, k, c) == GroupSlot(splits, cores, k, c');
      }
      DigitsInjective(c / size, c' / size, splits);
    }
    if c / size == c' / size {
      forall d | d in dims ensures Eval(m[d], c) == Eval(m[d], c') {
        var k :| 0 <= k < |dims| && dims[k] == d;
        assert GroupSlot(splits, cores, k, c) == GroupSlot(splits, cores, k, c');
      }
    }
  }

  lemma PartitionReaches(m: SlotMap, dims: seq<Symbol>, splits: seq<nat>, cores: nat, size: pos, want: seq<int>)
    returns (c: int)
    requires IsPartitionMap(m, dims, splits, cores) && cores == size * Prod(splits) && size == cores / Prod(splits)
    requires Below(want, splits)
    ensures 0 <= c < cores && OwnsSlots(m, dims, want, c)
  {
    ProdPositive(splits);
    var g := Compose(want, splits);
    DigitsCompose(want, splits);
    c := g * size;
    BlockStart(g, size, Prod(splits));
    forall k | 0 <= k < |dims| ensures dims[k] in m && Eval(m[dims[k]], c) == want[k] {
      assert GroupSlot(splits, cores, k, c) == Digits(g, splits)[k];
    }
  }

  lemma PartitionOwnsBlocks(m: SlotMap, dims: seq<Symbol>, splits: seq<nat>, cores: nat)
    requires IsPartitionMap(m, dims, splits, cores) && cores % Prod(splits) == 0
    ensures PartitionBlocks(m, dims, splits, cores)
  {
    var size := cores / Prod(splits);
    ExactDiv(cores, Prod(splits));
    forall c, c' | 0 <= c < cores && 0 <= c' < cores
      ensures (forall d :: d in dims ==> Eval(m[d], c) == Eval(m[d], c')) <==> c / size == c' / size
    {
      PartitionSame(m, dims, splits, cores, size, c, c');
    }
    forall want: seq<int> | Below(want, splits)
      ensures exists c :: 0 <= c < cores && OwnsSlots(m, dims, want, c)
    {
      var c := PartitionReaches(m, dims, splits, cores, size, want);
    }
  }
}
