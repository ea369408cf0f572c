/** A dense tensor cut into equal slices, one slot tuple per core
    (`_dense_subrange_partition` of `torch_spyre/_inductor/core_mapping.py`). */
module DensePartition {
  import opened Arith
  import opened Radix
  import opened Wrappers

  type Owners = map<int, map<int, int>>

  /** Splits per axis, the slot tuple of every core, and the shape of one slice. */
  datatype Partition = Partition(splits: seq<nat>, rows: seq<seq<int>>, shape: seq<nat>)

  function Get<K(==)>(m: map<K, int>, key: K, default: int): int {
    if key in m then m[key] else default
  }

  function GetAll(m: map<int, int>, rank: nat, default: int): (s: seq<int>)
    ensures |s| == rank && forall i :: 0 <= i < rank ==> s[i] == Get(m, i, default)
  {
    seq(rank, i => Get(m, i, default))
  }

  predicate AxesInside(m: map<int, int>, rank: nat) {
    forall axis <- m :: 0 <= axis < rank
  }

  /** The splits divide every axis and keep the last axis, the stick, whole. */
  predicate Splits(shape: seq<nat>, splits: seq<int>)
    requires 0 < |shape|
  {
    && |splits| == |shape|
    && (forall i :: 0 <= i < |shape| ==> 0 < splits[i] && shape[i] % splits[i] == 0)
    && splits[|shape| - 1] == 1
  }

  /** One core's slots: named on every split axis and inside the split. */
  predicate ValidRow(row: map<int, int>, splits: seq<nat>) {
    && AxesInside(row, |splits|)
    && forall i :: 0 <= i < |splits| ==> (splits[i] > 1 ==> i in row) && 0 <= Get(row, i, 0) < splits[i]
  }

  /** The cores that hold one slot tuple. */
  ghost function Holders(rows: seq<seq<int>>, slots: seq<int>): set<int> {
    set c | 0 <= c < |rows| && rows[c] == slots
  }

  function Rows(owners: Owners, rank: nat, n: nat): (rows: seq<seq<int>>)
    requires forall c :: 0 <= c < n ==> c in owners
    ensures |rows| == n && forall c :: 0 <= c < n ==> rows[c] == GetAll(owners[c], rank, 0)
  {
    seq(n, c requires 0 <= c < n => GetAll(owners[c], rank, 0))
  }

  /** Every slot tuple is held by the same positive number of cores; by one core
      when replicas are not allowed. */
  ghost predicate Covers(rows: seq<seq<int>>, splits: seq<nat>, replicas: bool, copies: int) {
    && 0 < copies && (replicas || copies == 1)
    && forall t :: Below(t, splits) ==> |Holders(rows, t)| == copies
  }

  ghost predicate Uniform(rows: seq<seq<int>>, splits: seq<nat>, replicas: bool) {
    exists copies :: Covers(rows, splits, replicas, copies)
  }

  ghost predicate ValidOwners(splits: seq<nat>, owners: Owners, replicas: bool) {
    && owners.Keys == Range(|owners|)
    && (forall c :: 0 <= c < |owners| ==> ValidRow(owners[c], splits))
    && Uniform(Rows(owners, |splits|, |owners|), splits, replicas)
  }

  ghost predicate ValidPartition(shape: seq<nat>, splits: map<int, int>, owners: Owners, replicas: bool)
    requires 0 < |shape|
  {
    && AxesInside(splits, |shape|)
    && Splits(shape, GetAll(splits, |shape|, 1))
    && ValidOwners(GetAll(splits, |shape|, 1), owners, replicas)
  }

  function SliceShape(shape: seq<nat>, splits: seq<nat>): (s: seq<nat>)
    requires 0 < |shape| && Splits(shape, splits)
    ensures |s| == |shape| && forall i :: 0 <= i < |shape| ==> s[i] == shape[i] / splits[i]
  {
    seq(|shape|, i requires 0 <= i < |shape| => shape[i] / splits[i])
  }

  function PartitionOf(shape: seq<nat>, splits: map<int, int>, owners: Owners): Partition
    requires 0 < |shape| && Splits(shape, GetAll(splits, |shape|, 1))
    requires forall c :: 0 <= c < |owners| ==> c in owners
  {
    var full := GetAll(splits, |shape|, 1);
    Partition(full, Rows(owners, |shape|, |owners|), SliceShape(shape, full))
  }

  // --- Counting holders ---

  /** `counts` says how many of the rows are each slot tuple. */
  ghost predicate Counted(counts: map<seq<int>, nat>, rows: seq<seq<int>>) {
    && (forall t :: t in counts <==> t in rows)
    && forall t :: t in counts ==> counts[t] == |Holders(rows, t)|
  }

  lemma HoldersSnoc(rows: seq<seq<int>>, row: seq<int>, t: seq<int>)
    ensures |Holders(rows + [row], t)| == |Holders(rows, t)| + if t == row then 1 else 0
  {
    assert Holders(rows + [row], t) == Holders(rows, t) + if t == row then {|rows|} else {};
  }

  lemma CountedStep(counts: map<seq<int>, nat>, rows: seq<seq<int>>, row: seq<int>)
    requires Counted(counts, rows)
    ensures Counted(counts[row := (if row in counts then counts[row] else 0) + 1], rows + [row])
  {
    var counts' := counts[row := (if row in counts then counts[row] else 0) + 1];
    HeldIffListed(rows, row);
    forall t | t in counts' ensures counts'[t] == |Holders(rows + [row], t)| {
      HoldersSnoc(rows, row, t);
    }
  }

  lemma HeldIffListed(rows: seq<seq<int>>, t: seq<int>)
    ensures t in rows <==> 0 < |Holders(rows, t)|
  {
    if t in rows {
      var c :| 0 <= c < |rows| && rows[c] == t;
      assert c in Holders(rows, t);
    } else {
      assert Holders(rows, t) == {};
    }
  }

  /** Whether every slot tuple of the grid has been counted. */
  predicate AllCounted(counts: map<seq<int>, nat>, splits: seq<nat>)
    requires AllPositive(splits)
  {
    forall k :: 0 <= k < Prod(splits) ==> Digits(k, splits) in counts
  }

  predicate SameCounts(counts: map<seq<int>, nat>, replicas: bool) {
    && (forall t <- counts, u <- counts :: counts[t] == counts[u])
    && (replicas || forall t <- counts :: counts[t] == 1)
  }

  /** The dictionary checks decide uniform coverage. */
  lemma CoverageDecided(counts: map<seq<int>, nat>, rows: seq<seq<int>>, splits: seq<nat>, replicas: bool)
    requires AllPositive(splits) && Counted(counts, rows)
    requires forall c :: 0 <= c < |rows| ==> Below(rows[c], splits)
    ensures AllCounted(counts, splits) && SameCounts(counts, replicas) <==> Uniform(rows, splits, replicas)
  {
    if AllCounted(counts, splits) && SameCounts(counts, replicas) {
      ProdPositive(splits);
      var first := Digits(0, splits);
      HeldIffListed(rows, first);
      forall t | Below(t, splits) ensures |Holders(rows, t)| == counts[first] {
        DigitsCompose(t, splits);
        assert Digits(Compose(t, splits), splits) in counts;
      }
      assert Covers(rows, splits, replicas, counts[first]);
    }
    if Uniform(rows, splits, replicas) {
      var copies :| Covers(rows, splits, replicas, copies);
      forall k | 0 <= k < Prod(splits) ensures Digits(k, splits) in counts {
        DigitsBelow(k, splits);
        HeldIffListed(rows, Digits(k, splits));
      }
      forall t | t in counts ensures counts[t] == copies {
        var c :| 0 <= c < |rows| && rows[c] == t;
      }
    }
  }

  /** The cores holding one of the first k slot tuples. */
  ghost function HeldBelow(rows: seq<seq<int>>, splits: seq<nat>, k: nat): set<int>
    requires AllPositive(splits)
  {
    set c | 0 <= c < |rows| && Below(rows[c], splits) && Compose(rows[c], splits) < k
  }

  lemma HeldStep(rows: seq<seq<int>>, splits: seq<nat>, k: nat)
    requires AllPositive(splits) && k < Prod(splits)
    ensures var here := Holders(rows, Digits(k, splits));
            HeldBelow(rows, splits, k + 1) == HeldBelow(rows, splits, k) + here && HeldBelow(rows, splits, k) !! here
  {
    DigitsBelow(k, splits);
    ComposeDigits(k, splits);
    forall c | c in HeldBelow(rows, splits, k + 1) && c !in HeldBelow(rows, splits, k)
      ensures rows[c] == Digits(k, splits)
    {
      DigitsCompose(rows[c], splits);
    }
  }

  lemma DisjointSize<T>(a: set<T>, b: set<T>)
    requires a !! b
    ensures |a + b| == |a| + |b|
  {
  }

  lemma HeldNext(rows: seq<seq<int>>, splits: seq<nat>, k: nat)
    requires AllPositive(splits) && k < Prod(splits)
    ensures |HeldBelow(rows, splits, k + 1)| == |HeldBelow(rows, splits, k)| + |Holders(rows, Digits(k, splits))|
  {
    HeldStep(rows, splits, k);
    DisjointSize(HeldBelow(rows, splits, k), Holders(rows, Digits(k, splits)));
  }

  lemma {:induction false} HeldSize(rows: seq<seq<int>>, splits: seq<nat>, replicas: bool, copies: int, k: nat)
    requires AllPositive(splits) && k <= Prod(splits) && Covers(rows, splits, replicas, copies)
    ensures |HeldBelow(rows, splits, k)| == k * copies
  {
    if k == 0 {
      NoneBelow(rows, splits);
    } else {
      HeldSize(rows, splits, replicas, copies, k - 1);
      HeldNext(rows, splits, k - 1);
      DigitsBelow(k - 1, splits);
      assert k * copies == (k - 1) * copies + copies;
    }
  }

  lemma NoneBelow(rows: seq<seq<int>>, splits: seq<nat>)
    requires AllPositive(splits)
    ensures HeldBelow(rows, splits, 0) == {}
  {
    forall c | 0 <= c < |rows| && Below(rows[c], splits) ensures 0 <= Compose(rows[c], splits) {
      DigitsCompose(rows[c], splits);
    }
  }

  lemma AllBelow(rows: seq<seq<int>>, splits: seq<nat>)
    requires AllPositive(splits) && forall c :: 0 <= c < |rows| ==> Below(rows[c], splits)
    ensures |HeldBelow(rows, splits, Prod(splits))| == |rows|
  {
    forall c | 0 <= c < |rows| ensures Compose(rows[c], splits) < Prod(splits) {
      DigitsCompose(rows[c], splits);
    }
    assert HeldBelow(rows, splits, Prod(splits)) == Range(|rows|);
  }

  /** Uniform coverage fixes the number of cores. */
  lemma CoveredCores(rows: seq<seq<int>>, splits: seq<nat>, replicas: bool)
    requires AllPositive(splits) && Uniform(rows, splits, replicas)
    requires forall c :: 0 <= c < |rows| ==> Below(rows[c], splits)
    ensures 0 < |rows| && 0 < Prod(splits) && |rows| % Prod(splits) == 0 && (replicas || |rows| == Prod(splits))
  {
    var copies :| Covers(rows, splits, replicas, copies);
    ProdPositive(splits);
    HeldSize(rows, splits, replicas, copies, Prod(splits));
    AllBelow(rows, splits);
    MulPositive(Prod(splits), copies);
    DivModUnique(|rows|, Prod(splits), copies, 0);
  }

  /** Slots per core, counted; an invalid row stops the scan. */
  method ReadRows(splits: seq<nat>, owners: Owners) returns (r: Result<seq<seq<int>>>, counts: map<seq<int>, nat>)
    requires forall c :: 0 <= c < |owners| ==> c in owners
    ensures r.Ok? <==> forall c :: 0 <= c < |owners| ==> ValidRow(owners[c], splits)
    ensures r.Ok? ==> r.value == Rows(owners, |splits|, |owners|) && Counted(counts, r.value)
    ensures r.Ok? ==> forall c :: 0 <= c < |r.value| ==> Below(r.value[c], splits)
  {
    var rows: seq<seq<int>> := [];
    counts := map[];
    for c := 0 to |owners|
      invariant rows == Rows(owners, |splits|, c) && Counted(counts, rows)
      invariant forall k :: 0 <= k < c ==> ValidRow(owners[k], splits) && Below(rows[k], splits)
    {
      if !ValidRow(owners[c], splits) {
        return Err, counts;
      }
      var slots := GetAll(owners[c], |splits|, 0);
      CountedStep(counts, rows, slots);
      counts := counts[slots := (if slots in counts then counts[slots] else 0) + 1];
      rows := rows + [slots];
    }
    r := Ok(rows);
  }

  method DenseSubrangePartition(shape: seq<nat>, splits: map<int, int>, owners: Owners, replicas: bool)
    returns (r: Result<Partition>)
    requires 0 < |shape| && AllPositive(shape)
    ensures r.Ok? <==> ValidPartition(shape, splits, owners, replicas)
    ensures r.Ok? ==> r.value == PartitionOf(shape, splits, owners)
  {
    if !AxesInside(splits, |shape|) {
      return Err;
    }
    var full := GetAll(splits, |shape|, 1);
    if !Splits(shape, full) {
      return Err;
    }
    r := CoveredBy(shape, full, owners, replicas);
  }

  method CoveredBy(shape: seq<nat>, splits: seq<nat>, owners: Owners, replicas: bool) returns (r: Result<Partition>)
    requires 0 < |shape| && Splits(shape, splits)
    ensures r.Ok? <==> ValidOwners(splits, owners, replicas)
    ensures r.Ok? ==> (forall c :: 0 <= c < |owners| ==> c in owners)
                      && r.value == Partition(splits, Rows(owners, |splits|, |owners|), SliceShape(shape, splits))
  {
    ProdPositive(splits);
    if |owners| == 0 || owners.Keys != Range(|owners|) || |owners| % Prod(splits) != 0
       || (!replicas && |owners| != Prod(splits))
    {
      WrongCores(splits, owners, replicas);
      return Err;
    }
    var rows := CoveredRows(splits, owners, replicas);
    if rows.Err? {
      return Err;
    }
    r := Ok(Partition(splits, rows.value, SliceShape(shape, splits)));
  }

  method CoveredRows(splits: seq<nat>, owners: Owners, replicas: bool) returns (r: Result<seq<seq<int>>>)
    requires AllPositive(splits) && forall c :: 0 <= c < |owners| ==> c in owners
    ensures r.Ok? <==> (forall c :: 0 <= c < |owners| ==> ValidRow(owners[c], splits))
                       && Uniform(Rows(owners, |splits|, |owners|), splits, replicas)
    ensures r.Ok? ==> r.value == Rows(owners, |splits|, |owners|)
  {
    var rows, counts := ReadRows(splits, owners);
    if rows.Err? {
      return Err;
    }
    CoverageDecided(counts, rows.value, splits, replicas);
    r := if AllCounted(counts, splits) && SameCounts(counts, replicas) then rows else Err;
  }

  /** The early count checks only reject owner maps that cannot cover the domain. */
  lemma WrongCores(splits: seq<nat>, owners: Owners, replicas: bool)
    requires AllPositive(splits) && 0 < Prod(splits)
    requires |owners| == 0 || owners.Keys != Range(|owners|) || |owners| % Prod(splits) != 0 || (!replicas && |owners| != Prod(splits))
    ensures !ValidOwners(splits, owners, replicas)
  {
    if ValidOwners(splits, owners, replicas) {
      ValidCores(splits, owners, replicas);
    }
  }

  lemma ValidCores(splits: seq<nat>, owners: Owners, replicas: bool)
    requires AllPositive(splits) && ValidOwners(splits, owners, replicas)
    ensures 0 < |owners| && 0 < Prod(splits) && |owners| % Prod(splits) == 0 && (replicas || |owners| == Prod(splits))
  {
    ValidRowsBelow(splits, owners);
    CoveredCores(Rows(owners, |splits|, |owners|), splits, replicas);
  }

  lemma ValidRowsBelow(splits: seq<nat>, owners: Owners)
    requires forall c :: 0 <= c < |owners| ==> c in owners && ValidRow(owners[c], splits)
    ensures forall c :: 0 <= c < |owners| ==> Below(Rows(owners, |splits|, |owners|)[c], splits)
  {
  }
}
