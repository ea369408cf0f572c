/** Mixed-radix numbers, first digit least significant: the coordinate system
    in which a core number names one work slice per split dimension. */
module Radix {
  import opened Arith

  function Digits(c: int, rs: seq<nat>): (ds: seq<int>)
    requires AllPositive(rs)
    ensures |ds| == |rs|
    decreases rs
  {
    if rs == [] then [] else [c % rs[0]] + Digits(c / rs[0], rs[1..])
  }

  function Compose(ds: seq<int>, rs: seq<nat>): int
    requires |ds| == |rs|
    decreases rs
  {
    if rs == [] then 0 else ds[0] + rs[0] * Compose(ds[1..], rs[1..])
  }

  predicate Below(ds: seq<int>, rs: seq<nat>) {
    && |ds| == |rs|
    && forall i :: 0 <= i < |ds| ==> 0 <= ds[i] < rs[i]
  }

  lemma {:induction false} DigitsBelow(c: int, rs: seq<nat>)
    requires AllPositive(rs)
    ensures Below(Digits(c, rs), rs)
    decreases rs
  {
    if rs != [] {
      DigitsBelow(c / rs[0], rs[1..]);
      var tail := Digits(c / rs[0], rs[1..]);
      forall i | 0 <= i < |rs| ensures 0 <= Digits(c, rs)[i] < rs[i] {
        if 0 < i { assert Digits(c, rs)[i] == tail[i - 1] && rs[i] == rs[1..][i - 1]; }
      }
    }
  }

  /** Digit i is the quotient by the product of the inner radices, reduced. */
  lemma {:induction false} DigitAt(c: int, rs: seq<nat>, i: nat)
    requires AllPositive(rs) && i < |rs|
    ensures 0 < Prod(rs[..i])
    ensures Digits(c, rs)[i] == c / Prod(rs[..i]) % rs[i]
    decreases rs
  {
    ProdPositive(rs[..i]);
    if i == 0 {
      assert rs[..0] == [];
    } else {
      DigitAt(c / rs[0], rs[1..], i - 1);
      assert rs[..i][1..] == rs[1..][..i - 1];
      DivDiv(c, rs[0], Prod(rs[1..][..i - 1]));
    }
  }

  lemma {:induction false} ComposeDigits(c: int, rs: seq<nat>)
    requires AllPositive(rs) && 0 <= c < Prod(rs)
    ensures Compose(Digits(c, rs), rs) == c
    decreases rs
  {
    if rs != [] {
      DivBounds(c, rs[0], 0, Prod(rs[1..]));
      ComposeDigits(c / rs[0], rs[1..]);
      assert Digits(c, rs)[1..] == Digits(c / rs[0], rs[1..]);
      DivModEq(c, rs[0]);
    }
  }

  lemma {:induction false} DigitsCompose(ds: seq<int>, rs: seq<nat>)
    requires AllPositive(rs) && Below(ds, rs)
    ensures 0 <= Compose(ds, rs) < Prod(rs)
    ensures Digits(Compose(ds, rs), rs) == ds
  {
    if rs != [] {
      var q := Compose(ds[1..], rs[1..]);
      DigitsCompose(ds[1..], rs[1..]);
      MulMono(q, Prod(rs[1..]) - 1, rs[0]);
      MulMono(0, q, rs[0]);
      assert (Prod(rs[1..]) - 1) * rs[0] == Prod(rs) - rs[0];
      DivModUnique(Compose(ds, rs), rs[0], q, ds[0]);
      assert ds == [ds[0]] + ds[1..];
    }
  }

  /** Equal digits name equal numbers. */
  lemma DigitsInjective(c: int, c': int, rs: seq<nat>)
    requires AllPositive(rs) && 0 <= c < Prod(rs) && 0 <= c' < Prod(rs)
    requires Digits(c, rs) == Digits(c', rs)
    ensures c == c'
  {
    ComposeDigits(c, rs);
    ComposeDigits(c', rs);
  }

  /** The digits over a concatenation are those of the remainder and the quotient. */
  lemma {:induction false} DigitsConcat(c: int, rs: seq<nat>, ts: seq<nat>)
    requires AllPositive(rs) && AllPositive(ts)
    ensures AllPositive(rs + ts) && 0 < Prod(rs)
    ensures Digits(c, rs + ts) == Digits(c % Prod(rs), rs) + Digits(c / Prod(rs), ts)
    decreases rs
  {
    ProdPositive(rs);
    if rs == [] {
      assert rs + ts == ts;
    } else {
      var r0, rest := rs[0], rs[1..];
      ProdPositive(rest);
      DigitsConcat(c / r0, rest, ts);
      assert (rs + ts)[1..] == rest + ts;
      DivDiv(c, r0, Prod(rest));
      ModMod(c, r0, Prod(rest));
      DivOfMod(c, r0, Prod(rest));
    }
  }
}
