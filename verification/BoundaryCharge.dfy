/** Who pays for loading a shared graph input
    (`charge_boundary_reads_once` of `torch_spyre/_inductor/cost_model.py`). */
module BoundaryCharge {
  import opened Arith
  import opened FusedTraffic

  // --- Clone-in bytes of a bundle ---

  function CloneEntry(u: Use): seq<Entry> {
    var b := CloneInElems(u.arg) * u.bytes;
    if b == 0 then [] else [Entry(u.arg.name, b)]
  }

  function CloneEntries(uses: seq<Use>): seq<Entry> {
    if uses == [] then [] else CloneEntries(uses[..|uses| - 1]) + CloneEntry(uses[|uses| - 1])
  }

  function Clones(uses: seq<Use>): seq<Entry> {
    Collect(CloneEntries(uses))
  }

  function AddClone(d: seq<Entry>, u: Use): seq<Entry> {
    var b := CloneInElems(u.arg) * u.bytes;
    if b == 0 then d else Raise(d, u.arg.name, b)
  }

  function CloneIn(ops: Bundle): int {
    Sum(Clones(Uses(ops)))
  }

  lemma CloneSnoc(uses: seq<Use>, u: Use)
    ensures Clones(uses + [u]) == AddClone(Clones(uses), u)
  {
    assert (uses + [u])[..|uses|] == uses;
    var entries := CloneEntries(uses);
    if CloneEntry(u) == [] {
      assert entries + [] == entries;
    } else {
      assert (entries + CloneEntry(u))[..|entries|] == entries;
    }
  }

  /** Bytes the clones owned by a bundle load, each input counted once. */
  method CloneInBytes(ops: Bundle) returns (total: int)
    ensures total == CloneIn(ops)
  {
    var external: seq<Entry> := [];
    for i := 0 to |ops|
      invariant external == Clones(Uses(ops[..i]))
    {
      assert Uses(ops[..i]) + OpUses(ops[i])[..0] == Uses(ops[..i]);
      for k := 0 to |ops[i].args|
        invariant external == Clones(Uses(ops[..i]) + OpUses(ops[i])[..k])
      {
        var a := ops[i].args[k];
        var b := CloneInElems(a) * ops[i].dtypeBytes;
        UsesStep(ops, i, k);
        CloneSnoc(Uses(ops[..i]) + OpUses(ops[i])[..k], Use(a, ops[i].dtypeBytes));
        if b != 0 {
          external := Raise(external, a.name, b);
        }
      }
      UsesNext(ops, i);
    }
    assert ops[..|ops|] == ops;
    total := Sum(external);
  }

  // --- Charging each input once ---

  /** The graph inputs a bundle reads. */
  function Charged(ops: Bundle): set<Name> {
    set u | u in Uses(ops) && ReadsInput(u.arg) :: u.arg.name
  }

  /** The graph inputs the first i bundles read. */
  function Seen(bundles: seq<Bundle>, i: nat): set<Name>
    requires i <= |bundles|
  {
    if i == 0 then {} else Seen(bundles, i - 1) + Charged(bundles[i - 1])
  }

  function ClearArg(a: Arg, again: set<Name>): Arg {
    if a.role == Input && a.name in again then a.(owns := false) else a
  }

  function ClearArgs(args: seq<Arg>, again: set<Name>): (r: seq<Arg>)
    ensures |r| == |args| && forall k :: 0 <= k < |args| ==> r[k] == ClearArg(args[k], again)
  {
    seq(|args|, k requires 0 <= k < |args| => ClearArg(args[k], again))
  }

  function ClearOp(op: Op, again: set<Name>): Op {
    op.(args := ClearArgs(op.args, again))
  }

  function ClearBundle(ops: Bundle, again: set<Name>): (r: Bundle)
    ensures |r| == |ops| && forall k :: 0 <= k < |ops| ==> r[k] == ClearOp(ops[k], again)
  {
    seq(|ops|, k requires 0 <= k < |ops| => ClearOp(ops[k], again))
  }

  function ChargedOnce(bundles: seq<Bundle>): (r: seq<Bundle>)
    ensures |r| == |bundles|
    ensures forall i :: 0 <= i < |bundles| ==> r[i] == OnceAt(bundles, i)
  {
    seq(|bundles|, i requires 0 <= i < |bundles| => OnceAt(bundles, i))
  }

  /** Bundle i without the charge for inputs that an earlier bundle has loaded. */
  function OnceAt(bundles: seq<Bundle>, i: int): Bundle
    requires 0 <= i < |bundles|
  {
    ClearBundle(bundles[i], Charged(bundles[i]) * Seen(bundles, i))
  }

  /** Clear the charge in an operation only where it reads one of the inputs again. */
  method RewriteOp(op: Op, again: set<Name>) returns (r: Op)
    ensures r == ClearOp(op, again)
  {
    r := op;
    if exists k :: 0 <= k < |op.args| && op.args[k].role == Input && op.args[k].name in again {
      r := op.(args := ClearArgs(op.args, again));
    } else {
      assert ClearArgs(op.args, again) == op.args;
    }
  }

  method RewriteBundle(ops: Bundle, again: set<Name>) returns (r: Bundle)
    ensures r == ClearBundle(ops, again)
  {
    r := [];
    for k := 0 to |ops|
      invariant |r| == k && forall j :: 0 <= j < k ==> r[j] == ClearOp(ops[j], again)
    {
      var op := RewriteOp(ops[k], again);
      r := r + [op];
    }
  }

  method ChargeBoundaryReadsOnce(bundles: seq<Bundle>) returns (out: seq<Bundle>)
    ensures out == ChargedOnce(bundles)
  {
    var seen: set<Name> := {};
    out := [];
    for i := 0 to |bundles|
      invariant |out| == i && seen == Seen(bundles, i)
      invariant forall j :: 0 <= j < i ==> out[j] == OnceAt(bundles, j)
    {
      var charged := Charged(bundles[i]);
      var rewritten := RewriteBundle(bundles[i], charged * seen);
      out := out + [rewritten];
      seen := seen + charged;
    }
  }

  function ClearUse(u: Use, again: set<Name>): Use {
    u.(arg := ClearArg(u.arg, again))
  }

  function ClearUses(uses: seq<Use>, again: set<Name>): (r: seq<Use>)
    ensures |r| == |uses| && forall k :: 0 <= k < |uses| ==> r[k] == ClearUse(uses[k], again)
  {
    seq(|uses|, k requires 0 <= k < |uses| => ClearUse(uses[k], again))
  }

  lemma {:induction false} UsesCleared(ops: Bundle, again: set<Name>)
    ensures Uses(ClearBundle(ops, again)) == ClearUses(Uses(ops), again)
  {
    if ops != [] {
      var n := |ops| - 1;
      UsesCleared(ops[..n], again);
      assert ClearBundle(ops, again)[..n] == ClearBundle(ops[..n], again);
      assert OpUses(ClearOp(ops[n], again)) == ClearUses(OpUses(ops[n]), again);
    }
  }

  /** Who is charged changes neither what a bundle reads nor what it moves itself. */
  lemma {:induction false} TrafficCleared(uses: seq<Use>, again: set<Name>)
    ensures TrafficOf(ClearUses(uses, again)) == TrafficOf(uses)
  {
    if uses != [] {
      var n := |uses| - 1;
      TrafficCleared(uses[..n], again);
      assert ClearUses(uses, again)[..n] == ClearUses(uses[..n], again);
    }
  }

  lemma FusedBytesUnchanged(bundles: seq<Bundle>, i: nat)
    requires i < |bundles|
    ensures FusedReads(ChargedOnce(bundles)[i]) == FusedReads(bundles[i])
    ensures FusedWrites(ChargedOnce(bundles)[i]) == FusedWrites(bundles[i])
  {
    var again := Charged(bundles[i]) * Seen(bundles, i);
    UsesCleared(bundles[i], again);
    TrafficCleared(Uses(bundles[i]), again);
  }

  lemma ChargedCleared(ops: Bundle, again: set<Name>)
    ensures Charged(ClearBundle(ops, again)) == Charged(ops)
  {
    UsesCleared(ops, again);
    var uses, cleared := Uses(ops), ClearUses(Uses(ops), again);
    forall n | n in Charged(ops) ensures n in Charged(ClearBundle(ops, again)) {
      var u :| u in uses && ReadsInput(u.arg) && u.arg.name == n;
      assert ClearUse(u, again) in cleared;
    }
  }

  lemma {:induction false} SeenSame(bundles: seq<Bundle>, bundles': seq<Bundle>, i: nat)
    requires |bundles| == |bundles'| && i <= |bundles|
    requires forall k :: 0 <= k < |bundles| ==> Charged(bundles[k]) == Charged(bundles'[k])
    ensures Seen(bundles, i) == Seen(bundles', i)
    decreases i
  {
    if i > 0 {
      SeenSame(bundles, bundles', i - 1);
    }
  }

  /** Charging again changes nothing. */
  lemma Idempotent(bundles: seq<Bundle>)
    ensures ChargedOnce(ChargedOnce(bundles)) == ChargedOnce(bundles)
  {
    var out := ChargedOnce(bundles);
    forall i | 0 <= i < |bundles| ensures Charged(out[i]) == Charged(bundles[i]) {
      ChargedCleared(bundles[i], Charged(bundles[i]) * Seen(bundles, i));
    }
    forall i | 0 <= i < |bundles| ensures ChargedOnce(out)[i] == out[i] {
      SeenSame(bundles, out, i);
      ClearTwice(bundles[i], Charged(bundles[i]) * Seen(bundles, i));
    }
  }

  lemma ClearTwice(ops: Bundle, again: set<Name>)
    ensures ClearBundle(ClearBundle(ops, again), again) == ClearBundle(ops, again)
  {
    forall k | 0 <= k < |ops| ensures ClearOp(ClearOp(ops[k], again), again) == ClearOp(ops[k], again) {
      assert ClearArgs(ClearArgs(ops[k].args, again), again) == ClearArgs(ops[k].args, again);
    }
  }

  // --- One load per graph input ---

  /** No charge of the bundle has been cleared yet. */
  ghost predicate NothingCleared(ops: Bundle) {
    AllOwned(Uses(ops))
  }

  ghost predicate AllOwned(uses: seq<Use>) {
    forall i :: 0 <= i < |uses| ==> uses[i].arg.owns
  }

  function Load(u: Use): nat {
    if u.arg.resident then u.arg.elems * u.bytes else 0
  }

  /** What loading an input once would cost, by each of its readers. */
  function LoadEntry(u: Use): seq<Entry> {
    if ReadsInput(u.arg) then [Entry(u.arg.name, Load(u))] else []
  }

  function LoadEntries(uses: seq<Use>): seq<Entry> {
    if uses == [] then [] else LoadEntries(uses[..|uses| - 1]) + LoadEntry(uses[|uses| - 1])
  }

  lemma BestSnoc(pairs: seq<Entry>, more: seq<Entry>, n: Name)
    requires |more| <= 1
    ensures Best(pairs + more, n)
         == if |more| == 1 && more[0].name == n then Max(Best(pairs, n), more[0].bytes) else Best(pairs, n)
  {
    if |more| == 0 {
      assert pairs + more == pairs;
    } else {
      assert (pairs + more)[..|pairs|] == pairs;
    }
  }

  lemma {:induction false} LoadsNonNegative(uses: seq<Use>)
    ensures NonNegative(LoadEntries(uses)) && NonNegative(CloneEntries(uses))
  {
    if uses != [] {
      LoadsNonNegative(uses[..|uses| - 1]);
    }
  }

  /** After clearing, a name is charged its load exactly when it is not cleared. */
  lemma {:induction false} ClonesCleared(uses: seq<Use>, again: set<Name>, n: Name)
    requires AllOwned(uses)
    ensures Best(CloneEntries(ClearUses(uses, again)), n) == if n in again then 0 else Best(LoadEntries(uses), n)
  {
    if uses != [] {
      var k := |uses| - 1;
      var before, u := uses[..k], uses[k];
      ClonesCleared(before, again, n);
      var cleared := ClearUses(uses, again);
      assert cleared[..k] == ClearUses(before, again);
      BestSnoc(CloneEntries(cleared[..k]), CloneEntry(cleared[k]), n);
      BestSnoc(LoadEntries(before), LoadEntry(u), n);
      LoadsNonNegative(before);
      CollectLookup(LoadEntries(before), n);
    }
  }

  /** One load for each input that bundle i is the first to read. */
  function LoadsAt(bundles: seq<Bundle>, i: int): int
    requires 0 <= i < |bundles|
  {
    TotalBest(FirstReads(bundles, i), LoadEntries(Uses(bundles[i])))
  }

  /** The inputs whose first reader is bundle i. */
  function FirstReads(bundles: seq<Bundle>, i: int): seq<Name>
    requires 0 <= i < |bundles|
  {
    Fresh(Uses(bundles[i]), Seen(bundles, i))
  }

  lemma {:induction false} SeenIs(bundles: seq<Bundle>, i: nat, n: Name)
    requires i <= |bundles|
    ensures n in Seen(bundles, i) <==> exists j :: 0 <= j < i && n in Charged(bundles[j])
    decreases i
  {
    if i > 0 {
      SeenIs(bundles, i - 1, n);
    }
  }

  /** An input is first read by exactly the earliest bundle that reads it. */
  lemma FirstReadsAre(bundles: seq<Bundle>, i: nat, n: Name)
    requires i < |bundles|
    ensures Distinct(FirstReads(bundles, i))
    ensures n in FirstReads(bundles, i) <==>
            n in Charged(bundles[i]) && forall j :: 0 <= j < i ==> n !in Charged(bundles[j])
  {
    FreshAre(Uses(bundles[i]), Seen(bundles, i));
    SeenIs(bundles, i, n);
  }

  lemma {:induction false} CloneNames(uses: seq<Use>, names: seq<Name>)
    requires forall u :: u in uses && ReadsInput(u.arg) && u.arg.owns ==> u.arg.name in names
    ensures forall k :: 0 <= k < |CloneEntries(uses)| ==> CloneEntries(uses)[k].name in names
  {
    if uses != [] {
      CloneNames(uses[..|uses| - 1], names);
      assert uses[|uses| - 1] in uses;
    }
  }

  lemma {:induction false} TotalSame(names: seq<Name>, pairs: seq<Entry>, pairs': seq<Entry>)
    requires forall k :: 0 <= k < |names| ==> Best(pairs, names[k]) == Best(pairs', names[k])
    ensures TotalBest(names, pairs) == TotalBest(names, pairs')
  {
    if names != [] {
      TotalSame(names[1..], pairs, pairs');
    }
  }

  /** Every bundle pays one load for each graph input it is the first to read, and
      nothing for the others. */
  lemma OneLoadPerInput(bundles: seq<Bundle>, i: nat)
    requires i < |bundles| && NothingCleared(bundles[i])
    ensures CloneIn(ChargedOnce(bundles)[i]) == LoadsAt(bundles, i)
  {
    var uses, again, names := Uses(bundles[i]), Charged(bundles[i]) * Seen(bundles, i), FirstReads(bundles, i);
    UsesCleared(bundles[i], again);
    var cleared := ClearUses(uses, again);
    FreshAre(uses, Seen(bundles, i));
    LoadsNonNegative(cleared);
    StillOwned(bundles, i);
    CloneNames(cleared, names);
    CollectTotal(CloneEntries(cleared), names);
    forall k | 0 <= k < |names| ensures Best(CloneEntries(cleared), names[k]) == Best(LoadEntries(uses), names[k]) {
      ClonesCleared(uses, again, names[k]);
      assert names[k] in names;
    }
    TotalSame(names, CloneEntries(cleared), LoadEntries(uses));
  }

  lemma StillOwned(bundles: seq<Bundle>, i: nat)
    requires i < |bundles|
    ensures var again := Charged(bundles[i]) * Seen(bundles, i);
            forall u :: u in ClearUses(Uses(bundles[i]), again) && ReadsInput(u.arg) && u.arg.owns ==>
              u.arg.name in FirstReads(bundles, i)
  {
    var uses, again := Uses(bundles[i]), Charged(bundles[i]) * Seen(bundles, i);
    FreshAre(uses, Seen(bundles, i));
    forall u | u in ClearUses(uses, again) && ReadsInput(u.arg) && u.arg.owns
      ensures u.arg.name in FirstReads(bundles, i)
    {
      var k :| 0 <= k < |uses| && u == ClearUse(uses[k], again);
      assert uses[k] in uses;
    }
  }

  // --- The whole graph ---

  function TotalCloneIn(bundles: seq<Bundle>): int {
    if bundles == [] then 0 else TotalCloneIn(bundles[..|bundles| - 1]) + CloneIn(bundles[|bundles| - 1])
  }

  /** The inputs the first i bundles read, each where it is read first. */
  function ReadsUpTo(bundles: seq<Bundle>, i: nat): seq<Name>
    requires i <= |bundles|
  {
    if i == 0 then [] else ReadsUpTo(bundles, i - 1) + FirstReads(bundles, i - 1)
  }

  /** Every graph input that some bundle reads. */
  function AllReads(bundles: seq<Bundle>): seq<Name> {
    ReadsUpTo(bundles, |bundles|)
  }

  lemma {:induction false} ReadsUpToAre(bundles: seq<Bundle>, i: nat)
    requires i <= |bundles|
    ensures Distinct(ReadsUpTo(bundles, i))
    ensures forall n :: n in ReadsUpTo(bundles, i) <==> n in Seen(bundles, i)
    decreases i
  {
    if i > 0 {
      ReadsUpToAre(bundles, i - 1);
      FreshAre(Uses(bundles[i - 1]), Seen(bundles, i - 1));
      var before, first := ReadsUpTo(bundles, i - 1), FirstReads(bundles, i - 1);
      forall p, q | 0 <= p < |before| && 0 <= q < |first| ensures before[p] != first[q] {
        assert before[p] in before && first[q] in first;
      }
    }
  }

  /** Every input that is read is listed, and listed once. */
  lemma AllReadsAre(bundles: seq<Bundle>)
    ensures Distinct(AllReads(bundles))
    ensures forall n :: n in AllReads(bundles) <==> exists j :: 0 <= j < |bundles| && n in Charged(bundles[j])
  {
    ReadsUpToAre(bundles, |bundles|);
    forall n ensures n in AllReads(bundles) <==> exists j :: 0 <= j < |bundles| && n in Charged(bundles[j]) {
      SeenIs(bundles, |bundles|, n);
    }
  }

  /** The load of an input in the first bundle, from i on, that reads it. */
  function FirstLoad(bundles: seq<Bundle>, n: Name, i: nat): int
    requires i <= |bundles|
    decreases |bundles| - i
  {
    if i == |bundles| then 0
    else if n in Charged(bundles[i]) then Best(LoadEntries(Uses(bundles[i])), n)
    else FirstLoad(bundles, n, i + 1)
  }

  function TotalLoad(names: seq<Name>, bundles: seq<Bundle>): int {
    if names == [] then 0 else FirstLoad(bundles, names[0], 0) + TotalLoad(names[1..], bundles)
  }

  lemma {:induction false} FirstLoadIs(bundles: seq<Bundle>, n: Name, i: nat, k: nat)
    requires i <= k < |bundles| && n in Charged(bundles[k]) && n !in Seen(bundles, k)
    ensures FirstLoad(bundles, n, i) == Best(LoadEntries(Uses(bundles[k])), n)
    decreases k - i
  {
    if i < k {
      FirstLoadIs(bundles, n, i + 1, k);
      SeenIs(bundles, k, n);
    }
  }

  lemma {:induction false} TotalLoadConcat(a: seq<Name>, b: seq<Name>, bundles: seq<Bundle>)
    ensures TotalLoad(a + b, bundles) == TotalLoad(a, bundles) + TotalLoad(b, bundles)
  {
    if a == [] {
      assert a + b == b;
    } else {
      assert (a + b)[1..] == a[1..] + b;
      TotalLoadConcat(a[1..], b, bundles);
    }
  }

  lemma {:induction false} LoadsOf(names: seq<Name>, bundles: seq<Bundle>, i: nat)
    requires i < |bundles| && forall n :: n in names ==> n in FirstReads(bundles, i)
    ensures TotalLoad(names, bundles) == TotalBest(names, LoadEntries(Uses(bundles[i])))
  {
    if names != [] {
      LoadsOf(names[1..], bundles, i);
      assert names[0] in FirstReads(bundles, i);
      FreshAre(Uses(bundles[i]), Seen(bundles, i));
      FirstLoadIs(bundles, names[0], 0, i);
    }
  }

  lemma TotalNext(bundles: seq<Bundle>, i: nat)
    requires 0 < i <= |bundles|
    ensures TotalCloneIn(bundles[..i]) == TotalCloneIn(bundles[..i - 1]) + CloneIn(bundles[i - 1])
  {
    assert bundles[..i][..i - 1] == bundles[..i - 1];
  }

  ghost predicate Pays(out: Bundle, bundles: seq<Bundle>, i: nat)
    requires i < |bundles|
  {
    CloneIn(out) == TotalLoad(FirstReads(bundles, i), bundles)
  }

  /** What bundle i pays is the loads of the inputs it is the first to read. */
  lemma PaidAt(bundles: seq<Bundle>, i: nat)
    requires i < |bundles| && NothingCleared(bundles[i])
    ensures Pays(ChargedOnce(bundles)[i], bundles, i)
  {
    OneLoadPerInput(bundles, i);
    LoadsOf(FirstReads(bundles, i), bundles, i);
  }

  lemma ReadsNext(bundles: seq<Bundle>, i: nat)
    requires 0 < i <= |bundles|
    ensures TotalLoad(ReadsUpTo(bundles, i), bundles)
         == TotalLoad(ReadsUpTo(bundles, i - 1), bundles) + TotalLoad(FirstReads(bundles, i - 1), bundles)
  {
    TotalLoadConcat(ReadsUpTo(bundles, i - 1), FirstReads(bundles, i - 1), bundles);
  }

  /** The first i bundles pay the loads of the inputs they read. */
  ghost predicate PaidUpTo(out: seq<Bundle>, bundles: seq<Bundle>, i: nat)
    requires i <= |bundles| == |out|
  {
    TotalCloneIn(out[..i]) == TotalLoad(ReadsUpTo(bundles, i), bundles)
  }

  lemma PaidNext(out: seq<Bundle>, bundles: seq<Bundle>, i: nat)
    requires 0 < i <= |bundles| == |out| && Pays(out[i - 1], bundles, i - 1) && PaidUpTo(out, bundles, i - 1)
    ensures PaidUpTo(out, bundles, i)
  {
    TotalNext(out, i);
    ReadsNext(bundles, i);
  }

  lemma PaidNone(out: seq<Bundle>, bundles: seq<Bundle>)
    requires |bundles| == |out|
    ensures PaidUpTo(out, bundles, 0)
  {
    assert out[..0] == [];
  }

  lemma {:induction false} TotalUpTo(bundles: seq<Bundle>, i: nat)
    requires i <= |bundles| && forall b :: b in bundles ==> NothingCleared(b)
    ensures PaidUpTo(ChargedOnce(bundles), bundles, i)
    decreases i
  {
    if i == 0 {
      PaidNone(ChargedOnce(bundles), bundles);
    } else {
      TotalUpTo(bundles, i - 1);
      PaidAt(bundles, i - 1);
      PaidNext(ChargedOnce(bundles), bundles, i);
    }
  }

  /** Over the whole graph the clones cost one load for every graph input that is read:
      the load of its first reader. */
  lemma TotalIsOneLoadEach(bundles: seq<Bundle>)
    requires forall b :: b in bundles ==> NothingCleared(b)
    ensures TotalCloneIn(ChargedOnce(bundles)) == TotalLoad(AllReads(bundles), bundles)
  {
    TotalUpTo(bundles, |bundles|);
    assert ChargedOnce(bundles)[..|bundles|] == ChargedOnce(bundles);
  }

  // --- Readers that agree ---

  /** Every reader of a graph input would load the same number of bytes. */
  ghost predicate Agree(bundles: seq<Bundle>, load: Name -> nat) {
    forall i, u :: 0 <= i < |bundles| && u in Uses(bundles[i]) && ReadsInput(u.arg) ==>
      Load(u) == load(u.arg.name)
  }

  function TotalOf(names: seq<Name>, load: Name -> nat): nat {
    if names == [] then 0 else load(names[0]) + TotalOf(names[1..], load)
  }

  lemma {:induction false} BestAgreed(uses: seq<Use>, load: Name -> nat, n: Name)
    requires forall u :: u in uses && ReadsInput(u.arg) ==> Load(u) == load(u.arg.name)
    ensures Best(LoadEntries(uses), n) == if exists u :: u in uses && ReadsInput(u.arg) && u.arg.name == n then load(n) else 0
  {
    if uses != [] {
      var k := |uses| - 1;
      BestAgreed(uses[..k], load, n);
      BestSnoc(LoadEntries(uses[..k]), LoadEntry(uses[k]), n);
      assert forall u :: u in uses <==> u in uses[..k] || u == uses[k];
    }
  }

  lemma {:induction false} LoadsAgreed(names: seq<Name>, bundles: seq<Bundle>, load: Name -> nat)
    requires Agree(bundles, load) && forall n :: n in names ==> n in AllReads(bundles)
    ensures TotalLoad(names, bundles) == TotalOf(names, load)
  {
    if names != [] {
      LoadsAgreed(names[1..], bundles, load);
      AllReadsAre(bundles);
      assert names[0] in AllReads(bundles);
      FirstLoadAgreed(bundles, load, names[0], 0);
    }
  }

  lemma {:induction false} FirstLoadAgreed(bundles: seq<Bundle>, load: Name -> nat, n: Name, i: nat)
    requires Agree(bundles, load) && i <= |bundles|
    ensures (exists j :: i <= j < |bundles| && n in Charged(bundles[j])) ==> FirstLoad(bundles, n, i) == load(n)
    decreases |bundles| - i
  {
    if i < |bundles| {
      BestAgreed(Uses(bundles[i]), load, n);
      FirstLoadAgreed(bundles, load, n, i + 1);
    }
  }

  /** When all readers of an input agree on its load, each input is paid for exactly once
      however many bundles read it. */
  lemma TotalIsCommonLoads(bundles: seq<Bundle>, load: Name -> nat)
    requires Agree(bundles, load) && forall b :: b in bundles ==> NothingCleared(b)
    ensures TotalCloneIn(ChargedOnce(bundles)) == TotalOf(AllReads(bundles), load)
  {
    TotalIsOneLoadEach(bundles);
    LoadsAgreed(AllReads(bundles), bundles, load);
  }
}
