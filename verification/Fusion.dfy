/** Splitting a schedule into bundles of fusable operations
    (`group_contiguous_fusable` of `torch_spyre/_inductor/fusion.py`). */
module Fusion {
  import opened Arith

  /** A boundary ends the bundle being built; a hoistable no-op is moved ahead of it. */
  datatype Kind = Fusable | Hoistable | Boundary

  function KindOf<T>(item: T, fusable: T -> bool, hoistable: T -> bool): Kind {
    if fusable(item) then Fusable else if hoistable(item) then Hoistable else Boundary
  }

  function Kinds<T>(items: seq<T>, fusable: T -> bool, hoistable: T -> bool): (ks: seq<Kind>)
    ensures |ks| == |items| && forall i :: 0 <= i < |items| ==> ks[i] == KindOf(items[i], fusable, hoistable)
  {
    seq(|items|, i requires 0 <= i < |items| => KindOf(items[i], fusable, hoistable))
  }

  // --- Grouping positions ---

  /** The groups emitted so far and the run still open. */
  datatype State = State(groups: seq<seq<int>>, run: seq<int>)

  function Close(s: State): seq<seq<int>> {
    if s.run == [] then s.groups else s.groups + [s.run]
  }

  function Next(s: State, kind: Kind, i: int): State {
    if kind == Fusable then State(s.groups, s.run + [i])
    else if kind == Hoistable && s.run != [] then State(s.groups + [[i]], s.run)
    else State(Close(s) + [[i]], [])
  }

  function After(kinds: seq<Kind>, i: nat): State
    requires i <= |kinds|
  {
    if i == 0 then State([], []) else Next(After(kinds, i - 1), kinds[i - 1], i - 1)
  }

  /** The groups of positions. */
  function Groups(kinds: seq<Kind>): seq<seq<int>> {
    Close(After(kinds, |kinds|))
  }

  /** The positions in the order in which they will be emitted. */
  function Order(s: State): seq<int> {
    Flatten(s.groups) + s.run
  }

  lemma OrderClose(s: State)
    ensures Flatten(Close(s)) == Order(s)
  {
    FlattenNext(s.groups, s.run);
  }

  lemma OrderNext(s: State, kind: Kind, i: int)
    ensures Order(Next(s, kind, i))
         == if kind == Hoistable && s.run != [] then Flatten(s.groups) + [i] + s.run else Order(s) + [i]
  {
    OrderClose(s);
    FlattenNext(s.groups, [i]);
    FlattenNext(Close(s), [i]);
  }

  // --- Every position once ---

  /** A listing of the first n positions. */
  ghost predicate Lists(s: seq<int>, n: int) {
    Distinct(s) && forall p :: p in s <==> 0 <= p < n
  }

  lemma InsertLists(a: seq<int>, b: seq<int>, n: nat)
    requires Lists(a + b, n)
    ensures Lists(a + [n] + b, n + 1)
  {
    var s := a + [n] + b;
    forall p ensures p in s <==> 0 <= p < n + 1 {
      assert p in s <==> p in a || p == n || p in b;
      assert p in a + b <==> p in a || p in b;
    }
    forall i | 0 <= i < |a| ensures a[i] != n {
      var x := a[i];
      assert x in a + b;
    }
    forall i | 0 <= i < |b| ensures b[i] != n {
      var x := b[i];
      assert x in a + b;
    }
    InsertDistinct(a, b, n);
  }

  lemma InsertDistinct(a: seq<int>, b: seq<int>, z: int)
    requires Distinct(a + b) && z !in a && z !in b
    ensures Distinct(a + [z] + b)
  {
    var s, t := a + b, a + [z] + b;
    forall i, j | 0 <= i < j < |t| ensures t[i] != t[j] {
      if i != |a| && j != |a| {
        assert t[i] == s[if i < |a| then i else i - 1] && t[j] == s[if j < |a| then j else j - 1];
      }
    }
  }

  lemma {:induction false} EachOnce(kinds: seq<Kind>, i: nat)
    requires i <= |kinds|
    ensures Lists(Order(After(kinds, i)), i)
    decreases i
  {
    if i > 0 {
      var s, k := After(kinds, i - 1), i - 1;
      EachOnce(kinds, k);
      OrderNext(s, kinds[k], k);
      InsertLists(Flatten(s.groups), s.run, k);
      assert Order(s) + [] == Order(s);
      InsertLists(Order(s), [], k);
      assert Order(s) + [k] + [] == Order(s) + [k];
    }
  }

  /** The grouping is a permutation of the input. */
  lemma GroupsPermute(kinds: seq<Kind>)
    ensures Distinct(Flatten(Groups(kinds))) && forall p :: p in Flatten(Groups(kinds)) <==> 0 <= p < |kinds|
  {
    EachOnce(kinds, |kinds|);
    OrderClose(After(kinds, |kinds|));
  }

  // --- What shares a group ---

  /** No boundary among positions lo to hi - 1. */
  predicate Unbroken(kinds: seq<Kind>, lo: int, hi: int) {
    forall k :: lo <= k < hi && 0 <= k < |kinds| ==> kinds[k] != Boundary
  }

  /** The fusable positions from lo to hi - 1, in order. */
  function Fusables(kinds: seq<Kind>, lo: int, hi: int): (r: seq<int>)
    requires 0 <= lo && hi <= |kinds|
    ensures forall p :: p in r <==> lo <= p < hi && kinds[p] == Fusable
    decreases hi - lo
  {
    if hi <= lo then [] else Fusables(kinds, lo, hi - 1) + if kinds[hi - 1] == Fusable then [hi - 1] else []
  }

  /** One past the last boundary below i. */
  function Since(kinds: seq<Kind>, i: nat): (b: nat)
    requires i <= |kinds|
    ensures b <= i && Unbroken(kinds, b, i) && (b > 0 ==> kinds[b - 1] == Boundary)
  {
    if i == 0 then 0 else if kinds[i - 1] == Boundary then i else Since(kinds, i - 1)
  }

  /** The open run holds exactly the fusable positions since the last boundary. */
  lemma {:induction false} RunSince(kinds: seq<Kind>, i: nat)
    requires i <= |kinds|
    ensures After(kinds, i).run == Fusables(kinds, Since(kinds, i), i)
    decreases i
  {
    if i > 0 {
      RunSince(kinds, i - 1);
      var before, k := After(kinds, i - 1), i - 1;
      assert After(kinds, i) == Next(before, kinds[k], k);
    }
  }

  /** A group is one non-fusable position, or all fusable positions between two
      boundaries. */
  ghost predicate GoodGroup(kinds: seq<Kind>, g: seq<int>) {
    || (|g| == 1 && 0 <= g[0] < |kinds| && kinds[g[0]] != Fusable)
    || exists lo, hi :: Segment(kinds, lo, hi) && g == Fusables(kinds, lo, hi)
  }

  /** A stretch between boundaries that cannot be extended to the right. */
  ghost predicate Segment(kinds: seq<Kind>, lo: int, hi: int) {
    0 <= lo <= hi <= |kinds| && Unbroken(kinds, lo, hi) && (hi < |kinds| ==> kinds[hi] == Boundary)
      && (lo > 0 ==> kinds[lo - 1] == Boundary)
  }

  ghost predicate AllGood(kinds: seq<Kind>, groups: seq<seq<int>>) {
    forall k :: 0 <= k < |groups| ==> GoodGroup(kinds, groups[k])
  }

  lemma {:induction false} EmittedGood(kinds: seq<Kind>, i: nat)
    requires i <= |kinds|
    ensures AllGood(kinds, After(kinds, i).groups)
    decreases i
  {
    if i > 0 {
      var s, k := After(kinds, i - 1), i - 1;
      EmittedGood(kinds, k);
      RunSince(kinds, k);
      assert GoodGroup(kinds, [k]) || kinds[k] == Fusable;
      if kinds[k] == Boundary {
        assert Segment(kinds, Since(kinds, k), k);
      }
    }
  }

  lemma GroupsGood(kinds: seq<Kind>)
    ensures AllGood(kinds, Groups(kinds))
  {
    var n := |kinds|;
    EmittedGood(kinds, n);
    RunSince(kinds, n);
    assert Segment(kinds, Since(kinds, n), n);
  }

  ghost predicate SameGroup(groups: seq<seq<int>>, p: int, q: int) {
    exists k :: 0 <= k < |groups| && p in groups[k] && q in groups[k]
  }

  lemma {:induction false} FindGroup(groups: seq<seq<int>>, p: int) returns (k: nat)
    requires p in Flatten(groups)
    ensures k < |groups| && p in groups[k]
  {
    var n := |groups| - 1;
    if p in groups[n] {
      k := n;
    } else {
      k := FindGroup(groups[..n], p);
    }
  }

  /** Two fusable positions share a bundle exactly when no boundary separates them. */
  lemma SharedBundle(kinds: seq<Kind>, p: int, q: int)
    requires 0 <= p < q < |kinds| && kinds[p] == Fusable && kinds[q] == Fusable
    ensures SameGroup(Groups(kinds), p, q) <==> Unbroken(kinds, p, q)
  {
    var groups := Groups(kinds);
    GroupsGood(kinds);
    GroupsPermute(kinds);
    var k := FindGroup(groups, p);
    var lo, hi := SegmentOf(kinds, groups[k], p);
    if Unbroken(kinds, p, q) {
      assert q in groups[k];
    }
    if SameGroup(groups, p, q) {
      var j :| 0 <= j < |groups| && p in groups[j] && q in groups[j];
      var a, b := SegmentOf(kinds, groups[j], p);
    }
  }

  lemma SegmentOf(kinds: seq<Kind>, g: seq<int>, p: int) returns (lo: int, hi: int)
    requires GoodGroup(kinds, g) && p in g && 0 <= p < |kinds| && kinds[p] == Fusable
    ensures Segment(kinds, lo, hi) && g == Fusables(kinds, lo, hi)
  {
    lo, hi :| Segment(kinds, lo, hi) && g == Fusables(kinds, lo, hi);
  }

  // --- What changes places ---

  ghost predicate Before(s: seq<int>, x: int, y: int) {
    exists i, j :: 0 <= i < j < |s| && s[i] == x && s[j] == y
  }

  lemma NotBoth(s: seq<int>, x: int, y: int)
    requires Distinct(s) && Before(s, x, y)
    ensures !Before(s, y, x)
  {
  }

  lemma AppendKeeps(s: seq<int>, z: int, x: int, y: int)
    requires Before(s, x, y)
    ensures Before(s + [z], x, y)
  {
    var i, j :| 0 <= i < j < |s| && s[i] == x && s[j] == y;
    assert (s + [z])[i] == x && (s + [z])[j] == y;
  }

  lemma AppendLast(s: seq<int>, z: int, x: int)
    requires x in s
    ensures Before(s + [z], x, z)
  {
    var i :| 0 <= i < |s| && s[i] == x;
    assert (s + [z])[i] == x && (s + [z])[|s|] == z;
  }

  lemma InsertKeeps(a: seq<int>, b: seq<int>, z: int, x: int, y: int)
    requires Before(a + b, x, y)
    ensures Before(a + [z] + b, x, y)
  {
    var i, j :| 0 <= i < j < |a + b| && (a + b)[i] == x && (a + b)[j] == y;
    var s := a + [z] + b;
    var i', j' := if i < |a| then i else i + 1, if j < |a| then j else j + 1;
    assert s[i'] == x && s[j'] == y;
  }

  lemma InsertBetween(a: seq<int>, b: seq<int>, z: int, x: int)
    requires x in a + b
    ensures x in a ==> Before(a + [z] + b, x, z)
    ensures x in b ==> Before(a + [z] + b, z, x)
  {
    var s := a + [z] + b;
    assert s[|a|] == z;
    if x in a {
      var i :| 0 <= i < |a| && a[i] == x;
      assert s[i] == x;
    }
    if x in b {
      var i :| 0 <= i < |b| && b[i] == x;
      assert s[|a| + 1 + i] == x;
    }
  }

  /** q is a no-op that is moved ahead of the run it interrupts, and p is in that run. */
  predicate Jumps(kinds: seq<Kind>, p: int, q: int)
    requires 0 <= p < q < |kinds|
  {
    kinds[p] == Fusable && kinds[q] == Hoistable && Unbroken(kinds, p, q)
  }

  /** The pair is emitted in order, or reversed when q jumps ahead. */
  ghost predicate Placed(kinds: seq<Kind>, order: seq<int>, p: int, q: int)
    requires 0 <= p < q < |kinds|
  {
    if Jumps(kinds, p, q) then Before(order, q, p) else Before(order, p, q)
  }

  lemma PlacedNew(kinds: seq<Kind>, i: nat, p: int)
    requires 0 <= p < i < |kinds|
    ensures Placed(kinds, Order(After(kinds, i + 1)), p, i)
  {
    var s := After(kinds, i);
    EachOnce(kinds, i);
    RunSince(kinds, i);
    OrderNext(s, kinds[i], i);
    InRun(kinds, i, p);
    if kinds[i] == Hoistable && s.run != [] {
      InsertBetween(Flatten(s.groups), s.run, i, p);
    } else {
      AppendLast(Order(s), i, p);
    }
  }

  lemma InRun(kinds: seq<Kind>, i: nat, p: int)
    requires 0 <= p < i < |kinds|
    ensures p in After(kinds, i).run <==> kinds[p] == Fusable && Unbroken(kinds, p, i)
  {
    RunSince(kinds, i);
  }

  lemma {:induction false} AllPlaced(kinds: seq<Kind>, i: nat, p: int, q: int)
    requires 0 <= p < q < i <= |kinds|
    ensures Placed(kinds, Order(After(kinds, i)), p, q)
    decreases i
  {
    var k := i - 1;
    if q == k {
      PlacedNew(kinds, k, p);
    } else {
      AllPlaced(kinds, k, p, q);
      var s := After(kinds, k);
      OrderNext(s, kinds[k], k);
      var x, y := if Jumps(kinds, p, q) then q else p, if Jumps(kinds, p, q) then p else q;
      if kinds[k] == Hoistable && s.run != [] {
        InsertKeeps(Flatten(s.groups), s.run, k, x, y);
      } else {
        AppendKeeps(Order(s), k, x, y);
      }
    }
  }

  /** Two positions change places exactly when a hoistable one jumps ahead of a fusable
      one of the run it interrupts; so nothing ever moves later than that run. */
  lemma OnlyHoistedMove(kinds: seq<Kind>, p: int, q: int)
    requires 0 <= p < q < |kinds|
    ensures Before(Flatten(Groups(kinds)), q, p) <==> Jumps(kinds, p, q)
    ensures Before(Flatten(Groups(kinds)), p, q) <==> !Jumps(kinds, p, q)
  {
    OrderClose(After(kinds, |kinds|));
    GroupsPermute(kinds);
    AllPlaced(kinds, |kinds|, p, q);
    var order := Flatten(Groups(kinds));
    if Jumps(kinds, p, q) {
      NotBoth(order, q, p);
    } else {
      NotBoth(order, p, q);
    }
  }

  function UpTo(n: nat): (s: seq<int>)
    ensures |s| == n && forall i :: 0 <= i < n ==> s[i] == i
  {
    seq(n, i => i)
  }

  lemma PlainNext(s: State, kind: Kind, i: int)
    requires kind != Hoistable
    ensures Order(Next(s, kind, i)) == Order(s) + [i]
  {
    OrderNext(s, kind, i);
  }

  lemma OrderNone()
    ensures Order(State([], [])) == []
  {
  }

  /** Without hoistable positions the bundles flatten to the input. */
  lemma {:induction false} KeepsOrder(kinds: seq<Kind>, i: nat)
    requires i <= |kinds| && forall k :: 0 <= k < |kinds| ==> kinds[k] != Hoistable
    ensures Order(After(kinds, i)) == UpTo(i)
    decreases i
  {
    if i == 0 {
      OrderNone();
    } else {
      KeepsOrder(kinds, i - 1);
      PlainNext(After(kinds, i - 1), kinds[i - 1], i - 1);
      assert UpTo(i) == UpTo(i - 1) + [i - 1];
    }
  }

  lemma NoHoistKeepsInput(kinds: seq<Kind>)
    requires forall k :: 0 <= k < |kinds| ==> kinds[k] != Hoistable
    ensures Flatten(Groups(kinds)) == UpTo(|kinds|)
  {
    KeepsOrder(kinds, |kinds|);
    OrderClose(After(kinds, |kinds|));
  }

  // --- Grouping the items ---

  /** `r` lists the items at the given positions. */
  ghost predicate Picks<T>(items: seq<T>, at: seq<int>, r: seq<T>) {
    |r| == |at| && forall k :: 0 <= k < |at| ==> 0 <= at[k] < |items| && r[k] == items[at[k]]
  }

  ghost predicate PicksAll<T>(items: seq<T>, at: seq<seq<int>>, groups: seq<seq<T>>) {
    |groups| == |at| && forall g :: 0 <= g < |at| ==> Picks(items, at[g], groups[g])
  }

  /** Maximal runs of fusable items; every other item is its own group. */
  method GroupContiguousFusable<T>(items: seq<T>, fusable: T -> bool, hoistable: T -> bool) returns (groups: seq<seq<T>>)
    ensures PicksAll(items, Groups(Kinds(items, fusable, hoistable)), groups)
  {
    ghost var kinds := Kinds(items, fusable, hoistable);
    groups := [];
    var run: seq<T> := [];
    for i := 0 to |items|
      invariant PicksAll(items, After(kinds, i).groups, groups) && Picks(items, After(kinds, i).run, run)
    {
      var item := items[i];
      if fusable(item) {
        run := run + [item];
      } else if run != [] && hoistable(item) {
        groups := groups + [[item]];
      } else {
        if run != [] {
          groups := groups + [run];
          run := [];
        }
        groups := groups + [[item]];
      }
    }
    if run != [] {
      groups := groups + [run];
    }
  }
}
