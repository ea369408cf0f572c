/** Pack and unpack tables of the grouped matrix product
    (`compute_grouped_mm_routing_tables` of `torch_spyre/_inductor/customops.py`). */
module Routing {
  import opened Arith

  /** The packed tables, or the error the kernel raises. */
  datatype Outcome = Tables(packed: seq<int>) | ValueError | RuntimeError

  /** Tokens of expert e start where those of the expert before it end. */
  function Start(offs: seq<int>, e: int): int
    requires 0 <= e <= |offs|
  {
    if e == 0 then 0 else offs[e - 1]
  }

  function Count(offs: seq<int>, e: int): int
    requires 0 <= e < |offs|
  {
    offs[e] - Start(offs, e)
  }

  predicate Ascending(offs: seq<int>, n: int)
    requires n <= |offs|
  {
    forall e :: 0 <= e < n ==> Start(offs, e) <= offs[e]
  }

  predicate ValidOffsets(offs: seq<int>, total: nat, experts: nat) {
    |offs| == experts && Ascending(offs, |offs|) && Start(offs, |offs|) <= total
  }

  predicate Fits(offs: seq<int>, capacity: nat, n: int)
    requires n <= |offs|
  {
    forall e :: 0 <= e < n ==> Count(offs, e) <= capacity
  }

  /** The token a padded slot holds, or the zero row. */
  function SlotToken(offs: seq<int>, total: nat, capacity: nat, s: int): int
    requires 0 < capacity && 0 <= s / capacity < |offs|
  {
    var e, j := s / capacity, s % capacity;
    if j < Count(offs, e) then Start(offs, e) + j else total
  }

  /** The expert that owns a token; |offs| when no expert does. */
  function ExpertOf(offs: seq<int>, t: int): (e: nat)
    ensures e <= |offs| && (e < |offs| ==> t < offs[e])
  {
    if offs == [] || t < offs[0] then 0 else 1 + ExpertOf(offs[1..], t)
  }

  function TokenSlot(offs: seq<int>, capacity: nat, t: int): int {
    var e := ExpertOf(offs, t);
    if e < |offs| then e * capacity + (t - Start(offs, e)) else 0
  }

  // --- Experts ---

  lemma {:induction false} StartMono(offs: seq<int>, i: nat, j: nat)
    requires i <= j <= |offs| && Ascending(offs, |offs|)
    ensures 0 <= Start(offs, i) <= Start(offs, j)
    decreases j
  {
    if j > 0 {
      assert Start(offs, j - 1) <= offs[j - 1];
      if i < j {
        StartMono(offs, i, j - 1);
      } else {
        StartMono(offs, i - 1, j - 1);
      }
    }
  }

  lemma {:induction false} BeforeExpert(offs: seq<int>, t: int, k: nat)
    requires k < ExpertOf(offs, t)
    ensures offs[k] <= t
    decreases |offs|
  {
    if k > 0 {
      BeforeExpert(offs[1..], t, k - 1);
    }
  }

  /** A token belongs to the one expert whose range holds it. */
  lemma ExpertIs(offs: seq<int>, t: int, e: nat)
    requires Ascending(offs, |offs|) && e < |offs| && Start(offs, e) <= t < offs[e]
    ensures ExpertOf(offs, t) == e
  {
    var k := ExpertOf(offs, t);
    if k < e {
      StartMono(offs, k + 1, e);
    } else if e < k {
      BeforeExpert(offs, t, e);
    }
  }

  lemma ExpertHolds(offs: seq<int>, t: int)
    requires Ascending(offs, |offs|) && 0 <= t < Start(offs, |offs|)
    ensures var e := ExpertOf(offs, t);
            e < |offs| && Start(offs, e) <= t < offs[e]
  {
    var e := ExpertOf(offs, t);
    if e == |offs| {
      BeforeExpert(offs, t, |offs| - 1);
    } else if e > 0 {
      BeforeExpert(offs, t, e - 1);
    }
  }

  lemma NoExpert(offs: seq<int>, t: int)
    requires Ascending(offs, |offs|) && Start(offs, |offs|) <= t
    ensures ExpertOf(offs, t) == |offs|
  {
    var e := ExpertOf(offs, t);
    if e < |offs| {
      StartMono(offs, e + 1, |offs|);
    }
  }

  // --- The tables ---

  ghost predicate AreTables(offs: seq<int>, total: nat, capacity: nat, src: seq<int>, dst: seq<int>) {
    && |src| == |offs| * capacity && |dst| == total
    && (forall s :: 0 <= s < |src| ==>
          0 < capacity && 0 <= s / capacity < |offs| && src[s] == SlotToken(offs, total, capacity, s))
    && forall t :: 0 <= t < total ==> dst[t] == TokenSlot(offs, capacity, t)
  }

  /** Write a run of consecutive numbers into an array. */
  method FillRun(a: array<int>, at: int, from: int, count: int)
    requires 0 <= at && 0 <= count && at + count <= a.Length
    modifies a
    ensures forall i :: 0 <= i < a.Length ==> a[i] == if at <= i < at + count then from + (i - at) else old(a[i])
  {
    for j := 0 to count
      invariant forall i :: 0 <= i < a.Length ==> a[i] == if at <= i < at + j then from + (i - at) else old(a[i])
    {
      a[at + j] := from + j;
    }
  }

  /** Slots of experts before e are filled, later ones still point at the zero row. */
  ghost predicate SlotsDone(offs: seq<int>, total: nat, capacity: nat, src: seq<int>, e: int) {
    forall s :: 0 <= s < |src| ==>
      0 < capacity && 0 <= s / capacity < |offs| &&
      src[s] == if s < e * capacity then SlotToken(offs, total, capacity, s) else total
  }

  ghost predicate TokensDone(offs: seq<int>, capacity: nat, dst: seq<int>, start: int) {
    forall t :: 0 <= t < |dst| ==> dst[t] == if t < start then TokenSlot(offs, capacity, t) else 0
  }

  lemma SlotInRange(experts: nat, capacity: nat, s: int)
    requires 0 <= s < experts * capacity
    ensures 0 < capacity && 0 <= s / capacity < experts
  {
    assert experts * 0 == 0;
    DivBounds(s, capacity, 0, experts);
  }

  lemma SlotsStep(offs: seq<int>, total: nat, capacity: nat, src: seq<int>, src': seq<int>, e: nat)
    requires e < |offs| && |src| == |src'| == |offs| * capacity && 0 <= Count(offs, e) <= capacity
    requires SlotsDone(offs, total, capacity, src, e)
    requires forall s :: 0 <= s < |src| ==>
               src'[s] == if e * capacity <= s < e * capacity + Count(offs, e) then Start(offs, e) + (s - e * capacity) else src[s]
    ensures SlotsDone(offs, total, capacity, src', e + 1)
  {
    assert (e + 1) * capacity == e * capacity + capacity;
    forall s | 0 <= s < |src'|
      ensures 0 < capacity && 0 <= s / capacity < |offs|
      ensures src'[s] == if s < (e + 1) * capacity then SlotToken(offs, total, capacity, s) else total
    {
      SlotInRange(|offs|, capacity, s);
      if e * capacity <= s < e * capacity + capacity {
        DivModUnique(s, capacity, e, s - e * capacity);
      }
    }
  }

  lemma TokensStep(offs: seq<int>, capacity: nat, dst: seq<int>, dst': seq<int>, e: nat)
    requires e < |offs| && |dst| == |dst'| && Ascending(offs, |offs|)
    requires TokensDone(offs, capacity, dst, Start(offs, e))
    requires forall t :: 0 <= t < |dst| ==>
               dst'[t] == if Start(offs, e) <= t < Start(offs, e) + Count(offs, e) then e * capacity + (t - Start(offs, e)) else dst[t]
    ensures TokensDone(offs, capacity, dst', Start(offs, e + 1))
  {
    forall t | 0 <= t < |dst'| ensures dst'[t] == if t < offs[e] then TokenSlot(offs, capacity, t) else 0 {
      if Start(offs, e) <= t < offs[e] {
        ExpertIs(offs, t, e);
      }
    }
  }

  method CheckOffsets(offs: seq<int>, total: nat, experts: nat) returns (ok: bool)
    ensures ok <==> ValidOffsets(offs, total, experts)
  {
    if |offs| != experts {
      return false;
    }
    var prev := 0;
    for e := 0 to |offs|
      invariant prev == Start(offs, e) && Ascending(offs, e)
    {
      if offs[e] < prev {
        return false;
      }
      prev := offs[e];
    }
    ok := prev <= total;
  }

  /** Fill the slots of one expert and the table entries of its tokens. */
  method RouteExpert(offs: seq<int>, total: nat, capacity: nat, src: array<int>, dst: array<int>, e: nat, start: int, count: int)
    requires src != dst && src.Length == |offs| * capacity && dst.Length == total
    requires ValidOffsets(offs, total, |offs|) && e < |offs|
    requires start == Start(offs, e) && count == Count(offs, e) <= capacity
    requires SlotsDone(offs, total, capacity, src[..], e) && TokensDone(offs, capacity, dst[..], start)
    modifies src, dst
    ensures SlotsDone(offs, total, capacity, src[..], e + 1) && TokensDone(offs, capacity, dst[..], Start(offs, e + 1))
  {
    RunInside(offs, total, capacity, e);
    ghost var src0, dst0 := src[..], dst[..];
    if count > 0 {
      FillRun(src, e * capacity, start, count);
      FillRun(dst, start, e * capacity, count);
    }
    SlotsStep(offs, total, capacity, src0, src[..], e);
    TokensStep(offs, capacity, dst0, dst[..], e);
  }

  /** The tables exist exactly for valid offsets with no expert over capacity. */
  method ComputeRoutingTables(offs: seq<int>, total: nat, experts: nat, capacity: nat) returns (r: Outcome)
    ensures r.ValueError? <==> !ValidOffsets(offs, total, experts)
    ensures r.RuntimeError? <==> ValidOffsets(offs, total, experts) && !Fits(offs, capacity, |offs|)
    ensures r.Tables? ==> |r.packed| == experts * capacity + total
                          && AreTables(offs, total, capacity, r.packed[..experts * capacity], r.packed[experts * capacity..])
  {
    var valid := CheckOffsets(offs, total, experts);
    if !valid {
      return ValueError;
    }
    var src := new int[experts * capacity](_ => total);
    var dst := new int[total](_ => 0);
    var start := 0;
    InitiallyEmpty(offs, total, capacity, src[..], dst[..]);
    for e := 0 to experts
      invariant start == Start(offs, e) && Fits(offs, capacity, e)
      invariant SlotsDone(offs, total, capacity, src[..], e) && TokensDone(offs, capacity, dst[..], start)
    {
      var end := offs[e];
      var count := end - start;
      assert count == Count(offs, e);
      if count > capacity {
        return RuntimeError;
      }
      RouteExpert(offs, total, capacity, src, dst, e, start, count);
      start := end;
    }
    AllDone(offs, total, capacity, src[..], dst[..]);
    assert (src[..] + dst[..])[..experts * capacity] == src[..] && (src[..] + dst[..])[experts * capacity..] == dst[..];
    r := Tables(src[..] + dst[..]);
  }

  lemma InitiallyEmpty(offs: seq<int>, total: nat, capacity: nat, src: seq<int>, dst: seq<int>)
    requires |src| == |offs| * capacity && (forall s :: 0 <= s < |src| ==> src[s] == total)
    requires forall t :: 0 <= t < |dst| ==> dst[t] == 0
    ensures SlotsDone(offs, total, capacity, src, 0) && TokensDone(offs, capacity, dst, 0)
  {
    forall s | 0 <= s < |src| ensures 0 < capacity && 0 <= s / capacity < |offs| {
      SlotInRange(|offs|, capacity, s);
    }
  }

  lemma RunInside(offs: seq<int>, total: nat, capacity: nat, e: nat)
    requires ValidOffsets(offs, total, |offs|) && e < |offs| && Count(offs, e) <= capacity
    ensures 0 <= Start(offs, e) && 0 <= Count(offs, e) && Start(offs, e) + Count(offs, e) <= total
    ensures 0 <= e * capacity && e * capacity + Count(offs, e) <= |offs| * capacity
  {
    StartMono(offs, e, |offs|);
    StartMono(offs, e + 1, |offs|);
    MulMono(0, e, capacity);
    MulMono(e + 1, |offs|, capacity);
    assert (e + 1) * capacity == e * capacity + capacity;
  }

  lemma AllDone(offs: seq<int>, total: nat, capacity: nat, src: seq<int>, dst: seq<int>)
    requires ValidOffsets(offs, total, |offs|) && |src| == |offs| * capacity && |dst| == total
    requires SlotsDone(offs, total, capacity, src, |offs|) && TokensDone(offs, capacity, dst, Start(offs, |offs|))
    ensures AreTables(offs, total, capacity, src, dst)
  {
    forall t | Start(offs, |offs|) <= t < total ensures TokenSlot(offs, capacity, t) == 0 {
      NoExpert(offs, t);
    }
  }

  // --- The tables undo each other ---

  /** Every routed token sits in the slot its table entry names. */
  lemma TokenRoundTrip(offs: seq<int>, total: nat, capacity: nat, src: seq<int>, dst: seq<int>, t: int)
    requires ValidOffsets(offs, total, |offs|) && Fits(offs, capacity, |offs|)
    requires AreTables(offs, total, capacity, src, dst) && 0 <= t < Start(offs, |offs|)
    ensures 0 <= dst[t] < |src| && src[dst[t]] == t && 0 < capacity && dst[t] / capacity == ExpertOf(offs, t)
  {
    ExpertHolds(offs, t);
    var e := ExpertOf(offs, t);
    var j := t - Start(offs, e);
    RunInside(offs, total, capacity, e);
    DivModUnique(dst[t], capacity, e, j);
  }

  /** Every slot that is not padding holds a routed token whose entry names the slot. */
  lemma SlotRoundTrip(offs: seq<int>, total: nat, capacity: nat, src: seq<int>, dst: seq<int>, s: int)
    requires ValidOffsets(offs, total, |offs|) && AreTables(offs, total, capacity, src, dst) && 0 <= s < |src|
    ensures 0 < capacity && 0 <= s / capacity < |offs|
    ensures s % capacity < Count(offs, s / capacity) ==>
              0 <= src[s] < Start(offs, |offs|) && dst[src[s]] == s && ExpertOf(offs, src[s]) == s / capacity
    ensures s % capacity >= Count(offs, s / capacity) ==> src[s] == total
  {
    assert src[s] == SlotToken(offs, total, capacity, s);
    var e := s / capacity;
    StartMono(offs, e, |offs|);
    StartMono(offs, e + 1, |offs|);
    DivModEq(s, capacity);
    if s % capacity < Count(offs, e) {
      ExpertIs(offs, src[s], e);
    }
  }

  // --- Pack, multiply per expert, unpack ---

  ghost function Gather<T>(rows: seq<T>, index: seq<int>): (r: seq<T>)
    requires forall i :: 0 <= i < |index| ==> 0 <= index[i] < |rows|
    ensures |r| == |index| && forall i :: 0 <= i < |index| ==> r[i] == rows[index[i]]
  {
    seq(|index|, i requires 0 <= i < |index| => rows[index[i]])
  }

  /** Multiply every padded slot by the weights of the expert it belongs to. */
  ghost function Multiply<R, O>(padded: seq<R>, capacity: int, product: (int, R) -> O): (r: seq<O>)
    requires 0 < capacity
    ensures |r| == |padded| && forall s :: 0 <= s < |padded| ==> r[s] == product(s / capacity, padded[s])
  {
    seq(|padded|, s requires 0 <= s < |padded| => product(s / capacity, padded[s]))
  }

  /** The slots only name tokens or the appended zero row. */
  lemma SlotsNameRows(offs: seq<int>, total: nat, capacity: nat, src: seq<int>, dst: seq<int>)
    requires ValidOffsets(offs, total, |offs|) && AreTables(offs, total, capacity, src, dst)
    ensures forall s :: 0 <= s < |src| ==> 0 <= src[s] <= total
  {
    forall s | 0 <= s < |src| ensures 0 <= src[s] <= total {
      SlotRoundTrip(offs, total, capacity, src, dst, s);
    }
  }

  /** Each routed token gets its own expert's product. */
  lemma GroupedProduct<R(!new), O>(offs: seq<int>, total: nat, capacity: nat, src: seq<int>, dst: seq<int>,
                                   rows: seq<R>, zero: R, product: (int, R) -> O, t: int)
    requires ValidOffsets(offs, total, |offs|) && Fits(offs, capacity, |offs|) && |rows| == total
    requires AreTables(offs, total, capacity, src, dst) && 0 <= t < Start(offs, |offs|)
    ensures (forall s :: 0 <= s < |src| ==> 0 <= src[s] < |rows + [zero]|)
            && 0 < capacity && 0 <= dst[t] < |src|
            && Multiply(Gather(rows + [zero], src), capacity, product)[dst[t]] == product(ExpertOf(offs, t), rows[t])
  {
    SlotsNameRows(offs, total, capacity, src, dst);
    TokenRoundTrip(offs, total, capacity, src, dst, t);
  }

  /** A token past the last offset is read from slot 0, whatever that holds. */
  lemma UnroutedReadsSlotZero(offs: seq<int>, total: nat, capacity: nat, src: seq<int>, dst: seq<int>, t: int)
    requires ValidOffsets(offs, total, |offs|) && AreTables(offs, total, capacity, src, dst)
    requires 0 <= t < total && Start(offs, |offs|) <= t
    ensures dst[t] == 0
  {
    NoExpert(offs, t);
  }
}
