/** Owner formulas and tensor work divisions: which slice of each loop dimension
    a physical core owns. */
module Ownership {
  /** A loop, or the symbol that stands for one axis of a device tensor. */
  datatype Symbol = Loop(name: string) | PhysicalDim(axis: int)

  type pos = n: int | 0 < n witness 1

  /** Integer formulas over the physical core number. */
  datatype Expr =
    | Core
    | Lit(n: int)
    | FloorDiv(num: Expr, den: pos)
    | Modulo(num: Expr, den: pos)

  function Eval(e: Expr, core: int): int {
    match e
    case Core => core
    case Lit(n) => n
    case FloorDiv(num, den) => Eval(num, core) / den
    case Modulo(num, den) => Eval(num, core) % den
  }

  /** Replace the core number by a formula. */
  function Subst(e: Expr, at: Expr): Expr {
    match e
    case Core => at
    case Lit(n) => e
    case FloorDiv(num, den) => FloorDiv(Subst(num, at), den)
    case Modulo(num, den) => Modulo(Subst(num, at), den)
  }

  lemma {:induction false} EvalSubst(e: Expr, at: Expr, core: int)
    ensures Eval(Subst(e, at), core) == Eval(e, Eval(at, core))
  {
    match e
    case Core =>
    case Lit(n) =>
    case FloorDiv(num, den) => EvalSubst(num, at, core);
    case Modulo(num, den) => EvalSubst(num, at, core);
  }

  type SlotMap = map<Symbol, Expr>

  /** The slot of every dimension on one core. */
  function SlotsAt<K>(m: map<K, Expr>, core: int): map<K, int> {
    map d | d in m :: Eval(m[d], core)
  }

  /** Both formulas give every core below `cores` the same slot. */
  predicate SameSlot(left: Expr, right: Expr, cores: int) {
    forall c :: 0 <= c < cores ==> Eval(left, c) == Eval(right, c)
  }

  /** Tensor ownership in loop symbols. `cores` is the physical core domain. */
  datatype Division = Division(splits: map<Symbol, nat>, owners: SlotMap, cores: int)

  function SplitDims<K>(splits: map<K, nat>): map<K, nat> {
    map d | d in splits && splits[d] > 1 :: splits[d]
  }

  /** The same dimensions are split alike and, on every core, owned alike. A split
      dimension without an owner agrees with nothing. */
  predicate SameOwners<K(==)>(leftSplits: map<K, nat>, leftSlots: map<K, Expr>, leftCores: int,
                              rightSplits: map<K, nat>, rightSlots: map<K, Expr>, rightCores: int)
  {
    var left, right := SplitDims(leftSplits), SplitDims(rightSplits);
    && 0 < leftCores == rightCores
    && left == right
    && left.Keys <= leftSlots.Keys
    && left.Keys <= rightSlots.Keys
    && forall d <- left :: SameSlot(leftSlots[d], rightSlots[d], leftCores)
  }

  predicate SameOwnership(left: Division, right: Division) {
    SameOwners(left.splits, left.owners, left.cores, right.splits, right.owners, right.cores)
  }

  /** Every split dimension has an owner formula whose slot stays inside its
      split on every core. */
  predicate SlotsInside<K(==)>(slots: map<K, Expr>, splits: map<K, nat>, cores: int) {
    && splits.Keys <= slots.Keys
    && forall d <- splits, c | 0 <= c < cores :: 0 <= Eval(slots[d], c) < splits[d]
  }

  /** Some core owns slot `s`. */
  ghost predicate HasOwner(slot: Expr, cores: int, s: int) {
    exists c :: 0 <= c < cores && Eval(slot, c) == s
  }
}
