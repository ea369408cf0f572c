/** Which loop values a core owns before and after a split moves to aligned segments
    (`remap_work_division` of `torch_spyre/_inductor/core_mapping.py`). */
module AlignedRemap {
  import opened Arith
  import opened Radix
  import opened Ownership
  import opened AlignedSplit

  /** One aligned piece of a loop, and the extent a split of it is taken from. */
  datatype Segment = Segment(dim: Symbol, basis: nat)

  function Bases(segments: seq<Segment>): (b: seq<nat>)
    ensures |b| == |segments|
  {
    seq(|segments|, i requires 0 <= i < |segments| => segments[i].basis)
  }

  /** A loop that stays in one piece keeps its whole split. */
  function SegmentFactors(split: nat, segments: seq<Segment>): (seq<nat>, nat)
    requires 0 < split
  {
    if |segments| == 1 then ([split], 1) else Distribute(split, Bases(segments))
  }

  /** The digit of the old slot that a segment keeps. */
  function SegmentSlot(slot: Expr, stride: pos, factor: pos): Expr {
    Modulo(FloorDiv(slot, stride), factor)
  }

  function SplitIn(d: Division, dim: Symbol): nat {
    if dim in d.splits then d.splits[dim] else 1
  }

  function SlotIn(d: Division, dim: Symbol, core: int): int {
    if dim in d.owners then Eval(d.owners[dim], core) else 0
  }

  /** The new division reads the old slot as one digit per segment. */
  ghost predicate Remapped(slot: Expr, factors: seq<nat>, segments: seq<Segment>, d: Division) {
    && |factors| == |segments| && AllPositive(factors)
    && (forall i :: 0 <= i < |segments| ==> SplitIn(d, segments[i].dim) == factors[i])
    && forall i, c :: 0 <= i < |segments| ==> SlotIn(d, segments[i].dim, c) == Digits(Eval(slot, c), factors)[i]
  }

  /** The slot of each segment that loop value x falls into. */
  ghost function SegmentSlots(x: int, factors: seq<nat>, bases: seq<nat>): (s: seq<int>)
    requires Cuts(factors, bases)
    ensures |s| == |bases|
    decreases bases
  {
    if bases == [] then []
    else
      CutsHead(factors, bases);
      [x % bases[0] / (bases[0] / factors[0])] + SegmentSlots(x / bases[0], factors[1..], bases[1..])
  }

  lemma {:induction false} SegmentSlotsCompose(x: int, factors: seq<nat>, bases: seq<nat>)
    requires Cuts(factors, bases)
    ensures Below(SegmentSlots(x, factors, bases), factors)
    ensures Compose(SegmentSlots(x, factors, bases), factors) == SegmentOwner(x, factors, bases)
    decreases bases
  {
    if bases != [] {
      CutsHead(factors, bases);
      SegmentSlotsCompose(x / bases[0], factors[1..], bases[1..]);
      var s, rest := SegmentSlots(x, factors, bases), SegmentSlots(x / bases[0], factors[1..], bases[1..]);
      assert s[1..] == rest;
      DivBounds(x % bases[0], bases[0] / factors[0], 0, factors[0]);
      forall i | 0 <= i < |s| ensures 0 <= s[i] < factors[i] {
        if 0 < i { assert s[i] == rest[i - 1]; }
      }
    }
  }

  lemma {:induction false} SegmentSlotsAt(x: int, factors: seq<nat>, bases: seq<nat>, i: nat)
    requires Cuts(factors, bases) && i < |bases|
    ensures 0 < bases[i] / factors[i]
    ensures SegmentSlots(x, factors, bases)[i] == Digits(x, bases)[i] / (bases[i] / factors[i])
    decreases bases
  {
    CutsHead(factors, bases);
    if 0 < i {
      SegmentSlotsAt(x / bases[0], factors[1..], bases[1..], i - 1);
    }
  }

  ghost predicate OwnsAt(d: Division, segments: seq<Segment>, c: int, x: int, i: nat)
    requires AllPositive(Bases(segments)) && i < |segments|
  {
    var f, b := SplitIn(d, segments[i].dim), segments[i].basis;
    0 < f && 0 < b / f && SlotIn(d, segments[i].dim, c) == Digits(x, Bases(segments))[i] / (b / f)
  }

  /** Core c owns loop value x under `d`: in every segment it owns the block that
      the segment's digit of x falls into. */
  ghost predicate Owns(d: Division, segments: seq<Segment>, c: int, x: int)
    requires AllPositive(Bases(segments))
  {
    forall i :: 0 <= i < |segments| ==> OwnsAt(d, segments, c, x, i)
  }

  lemma OwnsAtIsDigit(slot: Expr, factors: seq<nat>, segments: seq<Segment>, d: Division, c: int, x: int, i: nat)
    requires Cuts(factors, Bases(segments)) && Remapped(slot, factors, segments, d) && i < |segments|
    ensures OwnsAt(d, segments, c, x, i) <==>
              Digits(Eval(slot, c), factors)[i] == SegmentSlots(x, factors, Bases(segments))[i]
  {
    SegmentSlotsAt(x, factors, Bases(segments), i);
  }

  lemma OwnsIsDigits(slot: Expr, factors: seq<nat>, segments: seq<Segment>, d: Division, c: int, x: int)
    requires Cuts(factors, Bases(segments)) && Remapped(slot, factors, segments, d)
    ensures Owns(d, segments, c, x) <==> Digits(Eval(slot, c), factors) == SegmentSlots(x, factors, Bases(segments))
  {
    var digits, slots := Digits(Eval(slot, c), factors), SegmentSlots(x, factors, Bases(segments));
    forall i | 0 <= i < |segments| ensures OwnsAt(d, segments, c, x, i) <==> digits[i] == slots[i] {
      OwnsAtIsDigit(slot, factors, segments, d, c, x, i);
    }
  }

  /** Numbers below the product are equal exactly when their digits are. */
  lemma DigitsAreCompose(s: int, digits: seq<int>, factors: seq<nat>)
    requires AllPositive(factors) && Below(digits, factors) && 0 <= s < Prod(factors)
    ensures Digits(s, factors) == digits <==> s == Compose(digits, factors)
  {
    ComposeDigits(s, factors);
    DigitsCompose(digits, factors);
  }

  /** Remapping moves the owner of x from its old slot to `SegmentOwner(x)`; it
      changes nothing exactly where the split keeps blocks. */
  lemma RemapOwnership(slot: Expr, factors: seq<nat>, segments: seq<Segment>, d: Division, c: int, x: int)
    requires Cuts(factors, Bases(segments)) && Remapped(slot, factors, segments, d)
    requires 0 <= Eval(slot, c) < Prod(factors)
    ensures Owns(d, segments, c, x) <==> Eval(slot, c) == SegmentOwner(x, factors, Bases(segments))
  {
    OwnsIsDigits(slot, factors, segments, d, c, x);
    SegmentSlotsCompose(x, factors, Bases(segments));
    DigitsAreCompose(Eval(slot, c), SegmentSlots(x, factors, Bases(segments)), factors);
  }

  /** Every core owns the same loop values before and after the remap. */
  ghost predicate SameValues(slot: Expr, split: nat, segments: seq<Segment>, d: Division, cores: int)
    requires AllPositive(Bases(segments)) && 0 < split && 0 < Prod(Bases(segments)) / split
  {
    forall c, x :: 0 <= c < cores && 0 <= x < Prod(Bases(segments)) ==>
      (Owns(d, segments, c, x) <==> Eval(slot, c) == x / (Prod(Bases(segments)) / split))
  }

  lemma RunsPreserve(slot: Expr, split: nat, factors: seq<nat>, segments: seq<Segment>, d: Division, cores: int)
    requires OwnsRuns(split, factors, Bases(segments)) && Remapped(slot, factors, segments, d)
    requires split == Prod(factors)
    requires forall c :: 0 <= c < cores ==> 0 <= Eval(slot, c) < split
    ensures SameValues(slot, split, segments, d, cores)
  {
    forall c, x | 0 <= c < cores && 0 <= x < Prod(Bases(segments))
      ensures Owns(d, segments, c, x) <==> Eval(slot, c) == x / (Prod(Bases(segments)) / split)
    {
      RemapOwnership(slot, factors, segments, d, c, x);
    }
  }

  lemma PreservedMeansRuns(slot: Expr, split: nat, factors: seq<nat>, segments: seq<Segment>, d: Division, cores: int)
    requires Cuts(factors, Bases(segments)) && Remapped(slot, factors, segments, d)
    requires 0 < split == Prod(factors) && 0 < Prod(Bases(segments)) / split
    requires forall s :: 0 <= s < split ==> HasOwner(slot, cores, s)
    requires SameValues(slot, split, segments, d, cores)
    ensures OwnsRuns(split, factors, Bases(segments))
  {
    var bases := Bases(segments);
    forall x | 0 <= x < Prod(bases) ensures SegmentOwner(x, factors, bases) == x / (Prod(bases) / split) {
      SegmentSlotsCompose(x, factors, bases);
      DigitsCompose(SegmentSlots(x, factors, bases), factors);
      assert HasOwner(slot, cores, SegmentOwner(x, factors, bases));
      var c :| 0 <= c < cores && Eval(slot, c) == SegmentOwner(x, factors, bases);
      RemapOwnership(slot, factors, segments, d, c, x);
    }
  }

  /** A loop in one piece keeps its whole split either way. */
  lemma OneFactor(split: nat, factors: seq<nat>)
    requires |factors| == 1 && Prod(factors) == split
    ensures factors == [split]
  {
    assert factors == [factors[0]] && factors[1..] == [];
  }

  /** The remap preserves ownership if and only if the split keeps blocks. */
  lemma RemapPreservesExactly(slot: Expr, split: nat, segments: seq<Segment>, d: Division, cores: int)
    requires 0 < split && AllPositive(Bases(segments)) && Divides(split, Prod(Bases(segments)))
    requires Remapped(slot, SegmentFactors(split, segments).0, segments, d)
    requires forall c :: 0 <= c < cores ==> 0 <= Eval(slot, c) < split
    requires forall s :: 0 <= s < split ==> HasOwner(slot, cores, s)
    ensures |Distribute(split, Bases(segments)).0| == |segments| && 0 < Prod(Bases(segments)) / split
    ensures KeepsBlocks(Distribute(split, Bases(segments)).0, Bases(segments)) <==>
              SameValues(slot, split, segments, d, cores)
  {
    var bases := Bases(segments);
    var factors := Distribute(split, bases).0;
    DistributeCuts(split, bases);
    if |segments| == 1 {
      OneFactor(split, factors);
    }
    var w := BlockWidth(factors, bases);
    KeepsBlocksExactly(split, bases);
    if KeepsBlocks(factors, bases) {
      RunsPreserve(slot, split, factors, segments, d, cores);
    } else if SameValues(slot, split, segments, d, cores) {
      PreservedMeansRuns(slot, split, factors, segments, d, cores);
    }
  }
}
