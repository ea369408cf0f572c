/** Main-memory traffic of a fused bundle
    (`_fused_hbm_bytes` of `torch_spyre/_inductor/cost_model.py`). */
module FusedTraffic {
  import opened Arith
  import opened Wrappers

  datatype Name = Name(text: string)

  datatype Role = Input | Output

  /** The traffic of one operand; `resident` says that it lives on chip and `owns` that
      this bundle pays for the clone of a resident graph input. */
  datatype Arg = Arg(name: Name, role: Role, elems: nat, loopFactor: nat, replication: nat, broadcast: bool, resident: bool,
                     boundary: Option<bool>, owns: bool)

  datatype Op = Op(args: seq<Arg>, dtypeBytes: nat)

  type Bundle = seq<Op>

  predicate LooksLikeInput(n: Name) {
    |n.text| >= 3 && n.text[..3] == "arg"
  }

  predicate IsGraphBoundary(a: Arg) {
    if a.boundary.Some? then a.boundary.value else a.role == Input && LooksLikeInput(a.name)
  }

  /** What the operation itself transfers for this operand; nothing once it is on chip,
      except for a graph output, which is still copied out. */
  function HbmElems(a: Arg): (n: nat) {
    if !a.resident then
      var replication := if a.role == Input && a.broadcast then 1 else a.replication;
      a.elems * a.loopFactor * replication
    else if a.role == Output && IsGraphBoundary(a) then a.elems * a.loopFactor
    else 0
  }

  /** What copying a graph input onto the chip transfers, for the bundle that pays. */
  function CloneInElems(a: Arg): nat {
    if ReadsInput(a) && a.owns && a.resident then a.elems else 0
  }

  predicate ReadsInput(a: Arg) {
    a.role == Input && IsGraphBoundary(a)
  }

  /** An operand together with the element size of its operation. */
  datatype Use = Use(arg: Arg, bytes: nat)

  function OpUses(op: Op): (u: seq<Use>)
    ensures |u| == |op.args| && forall i :: 0 <= i < |u| ==> u[i] == Use(op.args[i], op.dtypeBytes)
  {
    seq(|op.args|, i requires 0 <= i < |op.args| => Use(op.args[i], op.dtypeBytes))
  }

  /** The operands of a bundle, in the order they are visited. */
  function Uses(ops: Bundle): seq<Use> {
    if ops == [] then [] else Uses(ops[..|ops| - 1]) + OpUses(ops[|ops| - 1])
  }

  // --- Dictionaries that keep the largest value per name ---

  datatype Entry = Entry(name: Name, bytes: int)

  function Lookup(d: seq<Entry>, n: Name): Option<int> {
    if d == [] then None else if d[0].name == n then Some(d[0].bytes) else Lookup(d[1..], n)
  }

  /** Insert at the end, or keep the larger of the old and the new value. */
  function Raise(d: seq<Entry>, n: Name, bytes: int): seq<Entry> {
    if d == [] then [Entry(n, bytes)]
    else if d[0].name == n then [Entry(n, Max(d[0].bytes, bytes))] + d[1..]
    else [d[0]] + Raise(d[1..], n, bytes)
  }

  function Sum(d: seq<Entry>): int {
    if d == [] then 0 else d[0].bytes + Sum(d[1..])
  }

  lemma {:induction false} RaiseSum(d: seq<Entry>, n: Name, bytes: int)
    ensures Lookup(Raise(d, n, bytes), n) == Some(if Lookup(d, n).Some? then Max(Lookup(d, n).value, bytes) else bytes)
    ensures Sum(Raise(d, n, bytes)) - Sum(d)
         == Lookup(Raise(d, n, bytes), n).value - if Lookup(d, n).Some? then Lookup(d, n).value else 0
  {
    if d != [] {
      RaiseSum(d[1..], n, bytes);
      if d[0].name == n {
        assert Raise(d, n, bytes)[1..] == d[1..];
      } else {
        assert Raise(d, n, bytes)[1..] == Raise(d[1..], n, bytes);
      }
    }
  }

  lemma {:induction false} RaiseOthers(d: seq<Entry>, n: Name, bytes: int, m: Name)
    requires m != n
    ensures Lookup(Raise(d, n, bytes), m) == Lookup(d, m)
  {
    if d != [] {
      RaiseOthers(d[1..], n, bytes, m);
      if d[0].name == n {
        assert Raise(d, n, bytes)[1..] == d[1..];
      } else {
        assert Raise(d, n, bytes)[1..] == Raise(d[1..], n, bytes);
      }
    }
  }

  /** The dictionary that results from visiting the pairs in order. */
  function Collect(pairs: seq<Entry>): seq<Entry> {
    if pairs == [] then []
    else Raise(Collect(pairs[..|pairs| - 1]), pairs[|pairs| - 1].name, pairs[|pairs| - 1].bytes)
  }

  /** The largest value recorded for a name; zero when there is none. */
  function Best(pairs: seq<Entry>, n: Name): int {
    if pairs == [] then 0
    else
      var before, last := Best(pairs[..|pairs| - 1], n), pairs[|pairs| - 1];
      if last.name == n then Max(before, last.bytes) else before
  }

  function TotalBest(names: seq<Name>, pairs: seq<Entry>): int {
    if names == [] then 0 else Best(pairs, names[0]) + TotalBest(names[1..], pairs)
  }

  predicate NonNegative(pairs: seq<Entry>) {
    forall i :: 0 <= i < |pairs| ==> 0 <= pairs[i].bytes
  }

  lemma {:induction false} CollectLookup(pairs: seq<Entry>, n: Name)
    requires NonNegative(pairs)
    ensures Best(pairs, n) == if Lookup(Collect(pairs), n).Some? then Lookup(Collect(pairs), n).value else 0
    ensures 0 <= Best(pairs, n)
  {
    if pairs != [] {
      var before, last := pairs[..|pairs| - 1], pairs[|pairs| - 1];
      CollectLookup(before, n);
      if last.name == n {
        RaiseSum(Collect(before), n, last.bytes);
      } else {
        RaiseOthers(Collect(before), last.name, last.bytes, n);
      }
    }
  }

  lemma {:induction false} TotalStep(names: seq<Name>, pairs: seq<Entry>)
    requires pairs != [] && Distinct(names)
    ensures var before, n := pairs[..|pairs| - 1], pairs[|pairs| - 1].name;
            TotalBest(names, pairs) - TotalBest(names, before) == if n in names then Best(pairs, n) - Best(before, n) else 0
    decreases |names|
  {
    if names != [] {
      TotalStep(names[1..], pairs);
      assert names == [names[0]] + names[1..];
      HeadNotRepeated(names[0], names[1..]);
    }
  }

  /** The dictionary's total is the largest value of every name, added up once. */
  lemma {:induction false} CollectTotal(pairs: seq<Entry>, names: seq<Name>)
    requires NonNegative(pairs) && Distinct(names) && forall i :: 0 <= i < |pairs| ==> pairs[i].name in names
    ensures Sum(Collect(pairs)) == TotalBest(names, pairs)
    decreases |pairs|
  {
    if pairs == [] {
      NothingRecorded(names);
    } else {
      var before, last := pairs[..|pairs| - 1], pairs[|pairs| - 1];
      CollectTotal(before, names);
      CollectLookup(before, last.name);
      CollectLookup(pairs, last.name);
      RaiseSum(Collect(before), last.name, last.bytes);
      TotalStep(names, pairs);
    }
  }

  lemma {:induction false} NothingRecorded(names: seq<Name>)
    ensures TotalBest(names, []) == 0
  {
    if names != [] {
      NothingRecorded(names[1..]);
    }
  }

  // --- Fused reads and writes of a bundle ---

  function Bytes(u: Use): nat {
    HbmElems(u.arg) * u.bytes
  }

  /** What visiting the operands accumulates: internal reads, writes, external reads. */
  datatype Traffic = Traffic(internal: int, written: int, external: seq<Entry>)

  function AddUse(t: Traffic, u: Use): Traffic {
    var b := Bytes(u);
    if ReadsInput(u.arg) then t.(external := Raise(t.external, u.arg.name, b))
    else if u.arg.role == Input then t.(internal := t.internal + b)
    else t.(written := t.written + b)
  }

  function TrafficOf(uses: seq<Use>): Traffic {
    if uses == [] then Traffic(0, 0, []) else AddUse(TrafficOf(uses[..|uses| - 1]), uses[|uses| - 1])
  }

  function FusedReads(ops: Bundle): int {
    TrafficOf(Uses(ops)).internal + Sum(TrafficOf(Uses(ops)).external)
  }

  function FusedWrites(ops: Bundle): int {
    TrafficOf(Uses(ops)).written
  }

  lemma UsesStep(ops: Bundle, i: nat, k: nat)
    requires i < |ops| && k < |ops[i].args|
    ensures Uses(ops[..i]) + OpUses(ops[i])[..k + 1] == Uses(ops[..i]) + OpUses(ops[i])[..k] + [Use(ops[i].args[k], ops[i].dtypeBytes)]
  {
  }

  lemma UsesNext(ops: Bundle, i: nat)
    requires i < |ops|
    ensures Uses(ops[..i + 1]) == Uses(ops[..i]) + OpUses(ops[i]) == Uses(ops[..i]) + OpUses(ops[i])[..|ops[i].args|]
  {
    assert ops[..i + 1][..i] == ops[..i];
  }

  lemma TrafficSnoc(uses: seq<Use>, u: Use)
    ensures TrafficOf(uses + [u]) == AddUse(TrafficOf(uses), u)
  {
    assert (uses + [u])[..|uses|] == uses;
  }

  // --- What the accumulated traffic is ---

  function TotalBytes(uses: seq<Use>): nat {
    if uses == [] then 0 else TotalBytes(uses[..|uses| - 1]) + Bytes(uses[|uses| - 1])
  }

  /** The reads of buffers that the graph itself produces. */
  function InternalReads(uses: seq<Use>): seq<Use> {
    if uses == [] then []
    else
      var n := |uses| - 1;
      InternalReads(uses[..n]) + if uses[n].arg.role == Input && !ReadsInput(uses[n].arg) then [uses[n]] else []
  }

  function Writes(uses: seq<Use>): seq<Use> {
    if uses == [] then []
    else
      var n := |uses| - 1;
      Writes(uses[..n]) + if uses[n].arg.role == Output then [uses[n]] else []
  }

  /** What each read of a graph input would load. */
  function ExternalEntries(uses: seq<Use>): seq<Entry> {
    if uses == [] then []
    else
      var n := |uses| - 1;
      ExternalEntries(uses[..n]) + if ReadsInput(uses[n].arg) then [Entry(uses[n].arg.name, Bytes(uses[n]))] else []
  }

  /** The inputs an operand list reads that are not to be skipped, each once. */
  function Fresh(uses: seq<Use>, skip: set<Name>): seq<Name> {
    if uses == [] then []
    else
      var before, a := Fresh(uses[..|uses| - 1], skip), uses[|uses| - 1].arg;
      if ReadsInput(a) && a.name !in skip && a.name !in before then before + [a.name] else before
  }

  lemma {:induction false} FreshAre(uses: seq<Use>, skip: set<Name>)
    ensures Distinct(Fresh(uses, skip))
    ensures forall n :: n in Fresh(uses, skip) <==> n !in skip && exists u :: u in uses && ReadsInput(u.arg) && u.arg.name == n
  {
    if uses != [] {
      FreshAre(uses[..|uses| - 1], skip);
      assert forall u :: u in uses <==> u in uses[..|uses| - 1] || u == uses[|uses| - 1];
    }
  }

  lemma TotalBytesNext(uses: seq<Use>, u: Use)
    ensures TotalBytes(uses + [u]) == TotalBytes(uses) + Bytes(u)
  {
    assert (uses + [u])[..|uses|] == uses;
  }

  lemma {:induction false} InternalIs(uses: seq<Use>)
    ensures TrafficOf(uses).internal == TotalBytes(InternalReads(uses))
  {
    if uses != [] {
      var n := |uses| - 1;
      InternalIs(uses[..n]);
      var before := InternalReads(uses[..n]);
      if uses[n].arg.role == Input && !ReadsInput(uses[n].arg) {
        TotalBytesNext(before, uses[n]);
      } else {
        assert before + [] == before;
      }
    }
  }

  lemma {:induction false} WrittenIs(uses: seq<Use>)
    ensures TrafficOf(uses).written == TotalBytes(Writes(uses))
  {
    if uses != [] {
      var n := |uses| - 1;
      WrittenIs(uses[..n]);
      var before := Writes(uses[..n]);
      if uses[n].arg.role == Output {
        TotalBytesNext(before, uses[n]);
      } else {
        assert before + [] == before;
      }
    }
  }

  lemma {:induction false} ExternalIs(uses: seq<Use>)
    ensures TrafficOf(uses).external == Collect(ExternalEntries(uses))
  {
    if uses != [] {
      var n := |uses| - 1;
      ExternalIs(uses[..n]);
      var before := ExternalEntries(uses[..n]);
      if ReadsInput(uses[n].arg) {
        assert ExternalEntries(uses)[..|before|] == before;
      } else {
        assert before + [] == before;
      }
    }
  }

  lemma {:induction false} ExternalNames(uses: seq<Use>)
    ensures NonNegative(ExternalEntries(uses))
    ensures forall i :: 0 <= i < |ExternalEntries(uses)| ==> ExternalEntries(uses)[i].name in Fresh(uses, {})
  {
    if uses != [] {
      ExternalNames(uses[..|uses| - 1]);
    }
  }

  /** The reads of a fused bundle are its internal reads and, for every graph input it
      reads, the largest load any of its operations would need, counted once. */
  lemma FusedReadsAre(ops: Bundle)
    ensures FusedReads(ops) == TotalBytes(InternalReads(Uses(ops))) + TotalBest(Fresh(Uses(ops), {}), ExternalEntries(Uses(ops)))
    ensures FusedWrites(ops) == TotalBytes(Writes(Uses(ops)))
  {
    var uses := Uses(ops);
    InternalIs(uses);
    WrittenIs(uses);
    ExternalIs(uses);
    ExternalNames(uses);
    FreshAre(uses, {});
    CollectTotal(ExternalEntries(uses), Fresh(uses, {}));
  }

  /** The best recorded value is reached by an entry and by none exceeded. */
  lemma {:induction false} BestIsLargest(pairs: seq<Entry>, n: Name)
    requires NonNegative(pairs)
    ensures forall e :: e in pairs && e.name == n ==> e.bytes <= Best(pairs, n)
    ensures Best(pairs, n) == 0 || Entry(n, Best(pairs, n)) in pairs
  {
    if pairs != [] {
      BestIsLargest(pairs[..|pairs| - 1], n);
    }
  }

  /** Read and write bytes of a fused bundle, each external input counted once. */
  method FusedHbmBytes(ops: Bundle) returns (read: int, write: int)
    ensures read == FusedReads(ops) && write == FusedWrites(ops)
    ensures read == TotalBytes(InternalReads(Uses(ops))) + TotalBest(Fresh(Uses(ops), {}), ExternalEntries(Uses(ops)))
    ensures write == TotalBytes(Writes(Uses(ops)))
  {
    read, write := 0, 0;
    var external: seq<Entry> := [];
    for i := 0 to |ops|
      invariant Traffic(read, write, external) == TrafficOf(Uses(ops[..i]))
    {
      assert Uses(ops[..i]) + OpUses(ops[i])[..0] == Uses(ops[..i]);
      for k := 0 to |ops[i].args|
        invariant Traffic(read, write, external) == TrafficOf(Uses(ops[..i]) + OpUses(ops[i])[..k])
      {
        var a := ops[i].args[k];
        var b := HbmElems(a) * ops[i].dtypeBytes;
        UsesStep(ops, i, k);
        TrafficSnoc(Uses(ops[..i]) + OpUses(ops[i])[..k], Use(a, ops[i].dtypeBytes));
        if ReadsInput(a) {
          external := Raise(external, a.name, b);
        } else if a.role == Input {
          read := read + b;
        } else {
          write := write + b;
        }
      }
      UsesNext(ops, i);
    }
    assert ops[..|ops|] == ops;
    read := read + Sum(external);
    FusedReadsAre(ops);
  }
}
