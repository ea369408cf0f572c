/** Reading ownership from physical slices, and when it is refused
    (`work_division_from_view` of `torch_spyre/_inductor/core_mapping.py`). */
module ViewReading {
  import opened Arith
  import opened Wrappers
  import opened Ownership
  import opened LoopRegions
  import opened LoopProofs
  import opened ViewOwnership

  // --- The loops behind the split axes ---

  predicate AllReadable(view: View, access: Access, axes: seq<int>) {
    forall i :: 0 <= i < |axes| ==> ReadableAxis(view, access, axes[i])
  }

  /** The loop that drives each axis. */
  function LoopKeys(view: View, access: Access, axes: seq<int>): (keys: seq<Symbol>)
    requires AllReadable(view, access, axes)
    ensures |keys| == |axes| && forall i :: 0 <= i < |axes| ==> keys[i] == LoopOf(view, access, axes[i])
  {
    seq(|axes|, i requires 0 <= i < |axes| => LoopOf(view, access, axes[i]))
  }

  /** The keys in order of first appearance. */
  function FirstSeen(keys: seq<Symbol>): seq<Symbol> {
    if keys == [] then []
    else
      var n := |keys| - 1;
      var before := FirstSeen(keys[..n]);
      if keys[n] in before then before else before + [keys[n]]
  }

  /** The axes with one key, in the order of the list. */
  function Under(axes: seq<int>, keys: seq<Symbol>, key: Symbol): seq<int>
    requires |axes| == |keys|
  {
    if axes == [] then []
    else
      var n := |axes| - 1;
      Under(axes[..n], keys[..n], key) + if keys[n] == key then [axes[n]] else []
  }

  lemma {:induction false} UnderAre(axes: seq<int>, keys: seq<Symbol>, key: Symbol, a: int)
    requires |axes| == |keys|
    ensures a in Under(axes, keys, key) <==> exists i :: 0 <= i < |axes| && axes[i] == a && keys[i] == key
  {
    if axes != [] {
      UnderAre(axes[..|axes| - 1], keys[..|axes| - 1], key, a);
    }
  }

  lemma {:induction false} UnderDistinct(axes: seq<int>, keys: seq<Symbol>, key: Symbol)
    requires |axes| == |keys| && Distinct(axes)
    ensures Distinct(Under(axes, keys, key))
  {
    if axes != [] {
      var n := |axes| - 1;
      UnderDistinct(axes[..n], keys[..n], key);
      var before := Under(axes[..n], keys[..n], key);
      forall i | 0 <= i < |before| ensures before[i] != axes[n] {
        var a := before[i];
        UnderAre(axes[..n], keys[..n], key, a);
      }
    }
  }

  lemma {:induction false} FirstSeenAre(keys: seq<Symbol>, key: Symbol)
    ensures key in FirstSeen(keys) <==> key in keys
  {
    if keys != [] {
      FirstSeenAre(keys[..|keys| - 1], key);
    }
  }

  lemma {:induction false} FirstSeenDistinct(keys: seq<Symbol>)
    ensures Distinct(FirstSeen(keys))
  {
    if keys != [] {
      FirstSeenDistinct(keys[..|keys| - 1]);
    }
  }

  /** Every key with its axes. */
  ghost predicate GroupedBy(axes: seq<int>, keys: seq<Symbol>, groups: map<Symbol, seq<int>>)
    requires |axes| == |keys|
  {
    && (forall key :: key in groups <==> key in keys)
    && forall key :: key in groups ==> groups[key] == Under(axes, keys, key)
  }

  lemma {:induction false} NoneUnder(axes: seq<int>, keys: seq<Symbol>, key: Symbol)
    requires |axes| == |keys| && key !in keys
    ensures Under(axes, keys, key) == []
  {
    if axes != [] {
      NoneUnder(axes[..|axes| - 1], keys[..|axes| - 1], key);
    }
  }

  lemma GroupNext(axes: seq<int>, keys: seq<Symbol>, groups: map<Symbol, seq<int>>, a: int, key: Symbol)
    requires |axes| == |keys| && GroupedBy(axes, keys, groups)
    ensures GroupedBy(axes + [a], keys + [key], groups[key := (if key in groups then groups[key] else []) + [a]])
  {
    assert (axes + [a])[..|axes|] == axes && (keys + [key])[..|axes|] == keys;
    if key !in keys {
      NoneUnder(axes, keys, key);
    }
    forall other | other in keys && other != key
      ensures Under(axes + [a], keys + [key], other) == Under(axes, keys, other)
    {
      assert Under(axes, keys, other) + [] == Under(axes, keys, other);
    }
  }

  /** The loops that drive the split axes, in order of first appearance. */
  function LoopsOf(view: View, access: Access, order: seq<int>): seq<Symbol>
    requires AllReadable(view, access, order)
  {
    FirstSeen(LoopKeys(view, access, order))
  }

  /** The split axes one loop drives, as listed. */
  function AxesFor(view: View, access: Access, order: seq<int>, loop: Symbol): seq<int>
    requires AllReadable(view, access, order)
  {
    Under(order, LoopKeys(view, access, order), loop)
  }

  /** `order` lists the split axes as the view does. */
  ghost predicate ListsSplits(view: View, order: seq<int>) {
    Distinct(order) && forall a :: a in order <==> a in view.splits
  }

  lemma AllListed(view: View, access: Access, order: seq<int>)
    requires ListsSplits(view, order)
    ensures AllReadable(view, access, order) <==> Readable(view, access)
  {
    if AllReadable(view, access, order) {
      forall a | a in view.splits ensures ReadableAxis(view, access, a) {
        assert a in order;
        var i :| 0 <= i < |order| && order[i] == a;
      }
    }
    if Readable(view, access) {
      forall i | 0 <= i < |order| ensures ReadableAxis(view, access, order[i]) {
        var a := order[i];
        assert a in order;
      }
    }
  }

  lemma DrivenLists(view: View, access: Access, order: seq<int>, loop: Symbol)
    requires Readable(view, access) && ListsSplits(view, order) && AllReadable(view, access, order)
    requires loop in LoopsOf(view, access, order)
    ensures ListsAxes(view, access, loop, AxesFor(view, access, order, loop))
  {
    var keys := LoopKeys(view, access, order);
    var axes := Under(order, keys, loop);
    FirstSeenAre(keys, loop);
    var k :| 0 <= k < |keys| && keys[k] == loop;
    UnderAre(order, keys, loop, order[k]);
    UnderDistinct(order, keys, loop);
    forall a ensures a in axes <==> a in view.splits && LoopOf(view, access, a) == loop {
      UnderAre(order, keys, loop, a);
      if a in view.splits && LoopOf(view, access, a) == loop {
        assert a in order;
        var i :| 0 <= i < |order| && order[i] == a;
      }
    }
  }

  lemma DrivenBy(view: View, access: Access, order: seq<int>, a: int)
    requires AllReadable(view, access, order) && a in order && ReadableAxis(view, access, a)
    ensures LoopOf(view, access, a) in LoopsOf(view, access, order)
  {
    var i :| 0 <= i < |order| && order[i] == a;
    FirstSeenAre(LoopKeys(view, access, order), LoopOf(view, access, a));
  }

  ghost predicate Grouped(view: View, access: Access, axes: seq<int>, loops: seq<Symbol>, groups: map<Symbol, seq<int>>) {
    && AllReadable(view, access, axes) && loops == LoopsOf(view, access, axes)
    && GroupedBy(axes, LoopKeys(view, access, axes), groups)
  }

  lemma GroupedNext(view: View, access: Access, axes: seq<int>, loops: seq<Symbol>, groups: map<Symbol, seq<int>>, a: int)
    requires Grouped(view, access, axes, loops, groups) && ReadableAxis(view, access, a)
    ensures var loop := LoopOf(view, access, a);
            Grouped(view, access, axes + [a], if loop in groups then loops else loops + [loop],
                    groups[loop := (if loop in groups then groups[loop] else []) + [a]])
  {
    var keys, loop := LoopKeys(view, access, axes), LoopOf(view, access, a);
    assert AllReadable(view, access, axes + [a]);
    assert LoopKeys(view, access, axes + [a]) == keys + [loop];
    assert (keys + [loop])[..|keys|] == keys;
    FirstSeenAre(keys, loop);
    GroupNext(axes, keys, groups, a, loop);
  }

  lemma GroupedNone(view: View, access: Access)
    ensures Grouped(view, access, [], [], map[])
  {
  }

  /** File one axis under its loop. */
  method AddAxis(view: View, access: Access, ghost before: seq<int>, a: int, loops: seq<Symbol>, groups: map<Symbol, seq<int>>)
    returns (loops': seq<Symbol>, groups': map<Symbol, seq<int>>)
    requires Grouped(view, access, before, loops, groups) && ReadableAxis(view, access, a)
    ensures Grouped(view, access, before + [a], loops', groups')
  {
    var loop := LoopOf(view, access, a);
    GroupedNext(view, access, before, loops, groups, a);
    loops' := if loop in groups then loops else loops + [loop];
    groups' := groups[loop := (if loop in groups then groups[loop] else []) + [a]];
  }

  /** The loop of every axis and the axes of every loop; an error when some axis cannot
      be read. */
  method GroupAxes(view: View, access: Access, order: seq<int>)
    returns (r: Result<(seq<Symbol>, map<Symbol, seq<int>>)>)
    ensures r.Ok? <==> AllReadable(view, access, order)
    ensures r.Ok? ==> Grouped(view, access, order, r.value.0, r.value.1)
  {
    var loops: seq<Symbol>, groups: map<Symbol, seq<int>> := [], map[];
    GroupedNone(view, access);
    for i := 0 to |order|
      invariant Grouped(view, access, order[..i], loops, groups)
    {
      if !ReadableAxis(view, access, order[i]) {
        return Err;
      }
      loops, groups := AddAxis(view, access, order[..i], order[i], loops, groups);
      assert order[..i + 1] == order[..i] + [order[i]];
    }
    assert order[..|order|] == order;
    r := Ok((loops, groups));
  }

  // --- One loop ---

  /** A loop with one split axis is within the limit on points. */
  predicate DirectFits(view: View, access: Access, axes: seq<int>)
    requires axes != [] && AllReadable(view, access, axes)
  {
    |axes| == 1 ==> ProofExtent(view, access, axes[0], true) <= MAX_EXACT_DIRECT_AXIS_POINTS
  }

  /** What a fused loop adds to the states that are enumerated. */
  function Cost(view: View, access: Access, axes: seq<int>, cores: int): int
    requires axes != [] && AllReadable(view, access, axes)
  {
    if |axes| == 1 then 0
    else ProofExtent(view, access, axes[0], false) + LoopSplit(AxesOf(view, access, axes), cores)
  }

  /** Some split, slices and owners prove the loop. */
  ghost predicate LoopProvable(view: View, access: Access, loop: Symbol, axes: seq<int>)
    requires Readable(view, access) && view.cores.Some?
  {
    exists split, signatures, table :: LoopRead(view, access, loop, axes, split, signatures, table)
  }

  /** A positive proof extent comes from a positive loop extent. */
  lemma ExtentPositive(view: View, access: Access, a: int, single: bool)
    requires ReadableAxis(view, access, a) && 0 < ProofExtent(view, access, a, single)
    ensures 0 < access.extents[LoopOf(view, access, a)]
  {
    var extent, stick := access.extents[LoopOf(view, access, a)], |access.sizes| - 1;
    var padded := access.sizes[a] * access.sizes[stick];
    if padded - access.sizes[stick] < extent <= padded {
      MulMono(1, access.sizes[a], access.sizes[stick]);
    }
  }

  /** Partitions inside owned slices stay on the axes, so checking bounds refuses
      nothing else. */
  lemma OnAxesImplied(axes: seq<Axis>, extent: int, split: int, cores: int, signatures: seq<seq<int>>, table: seq<int>)
    requires ValidLoop(extent, split) && forall i :: 0 <= i < |axes| ==> ValidAxis(axes[i])
    requires Proven(axes, extent, split, cores, signatures, table)
    requires forall i, c :: 0 <= i < |axes| && 0 <= c < cores ==> 0 <= Eval(axes[i].slot, c) < axes[i].split
    ensures OnAxes(axes, extent, split)
  {
    forall p | 0 <= p < split ensures SlotAccepted(extent, Ats(Coords(axes)), Sizes(axes), split, false, p) {
      assert p in table;
      var c :| 0 <= c < |table| && table[c] == p;
      var w := extent / split;
      SlotInside(extent, split, p);
      forall i | 0 <= i < |axes| ensures 0 <= SlotBounds(extent, Ats(Coords(axes)), split, p)[i].low
                                        && SlotBounds(extent, Ats(Coords(axes)), split, p)[i].high < axes[i].size {
        BoundsInside(axes, extent, split, p, signatures[p], i);
        assert SlotRow(axes, c)[i] == Eval(axes[i].slot, c);
      }
    }
  }

  /** The bounds of a partition lie in the slice that holds it. */
  lemma BoundsInside(axes: seq<Axis>, extent: int, split: int, part: int, row: seq<int>, i: nat)
    requires ValidLoop(extent, split) && 0 <= part < split && |row| == |axes| && i < |axes|
    requires forall k :: 0 <= k < |axes| ==> ValidAxis(axes[k])
    requires Inside(axes, extent, split, part, row) && 0 <= row[i] < axes[i].split
    ensures 0 <= SlotBounds(extent, Ats(Coords(axes)), split, part)[i].low
    ensures SlotBounds(extent, Ats(Coords(axes)), split, part)[i].high < axes[i].size
  {
    var region, width := SlotBounds(extent, Ats(Coords(axes)), split, part), SliceWidth(axes[i]);
    InsideSignature(axes, extent, split, part, region, row);
    assert Signature(axes, region)[i] == row[i];
    InSlice(region[i].low, width, row[i], axes[i].split);
    InSlice(region[i].high, width, row[i], axes[i].split);
  }

  lemma InSlice(x: int, width: int, slot: int, split: int)
    requires 0 < width && x / width == slot && 0 <= slot < split
    ensures 0 <= x < width * split
  {
    DivModEq(x, width);
    MulMono(0, slot, width);
    MulMono(slot + 1, split, width);
  }
}
