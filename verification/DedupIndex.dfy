/** The one-sweep reverse index of the duplicates' readers, against a live rescan
    (`_build_reverse_consumer_index` of `torch_spyre/_inductor/dedup_constants.py`). */
module DedupIndex {
  import opened Arith
  import opened DedupConstants
  import opened DedupList

  /** An operation that reads a duplicate. */
  datatype Consumer = Consumer(name: Buffer, computed: bool)

  type Index = map<Buffer, seq<Consumer>>

  function Lookup(index: Index, name: Buffer): seq<Consumer> {
    if name in index then index[name] else []
  }

  /** The operations that read a buffer, in list order. */
  function Readers(ops: seq<Op>, b: Buffer): seq<Consumer> {
    if ops == [] then []
    else
      var n := |ops| - 1;
      Readers(ops[..n], b) + ReaderAt(ops[n], b)
  }

  function ReaderAt(op: Op, b: Buffer): seq<Consumer> {
    if b in Reads(op) then [Consumer(op.name, op.Computed?)] else []
  }

  function AddReader(index: Index, matched: set<Buffer>, entry: Consumer): (r: Index)
    ensures r.Keys == index.Keys + matched
    ensures forall d :: Lookup(r, d) == Lookup(index, d) + if d in matched then [entry] else []
  {
    map d | d in index.Keys + matched :: Lookup(index, d) + if d in matched then [entry] else []
  }

  /** One sweep over the operations indexes the readers of all duplicates. */
  method BuildReverseConsumerIndex(ops: seq<Op>, duplicates: set<Buffer>) returns (index: Index)
    ensures index.Keys <= duplicates
    ensures forall d :: d in duplicates ==> Lookup(index, d) == Readers(ops, d)
  {
    index := map[];
    for i := 0 to |ops|
      invariant index.Keys <= duplicates
      invariant forall d :: d in duplicates ==> Lookup(index, d) == Readers(ops[..i], d)
    {
      var matched := Reads(ops[i]) * duplicates;
      forall d | d in duplicates ensures Readers(ops[..i + 1], d) == Readers(ops[..i], d) + ReaderAt(ops[i], d) {
        assert ops[..i + 1][..i] == ops[..i];
      }
      index := AddReader(index, matched, Consumer(ops[i].name, ops[i].Computed?));
    }
    assert ops[..|ops|] == ops;
  }

  /** Constants grouped by key, keys in order of first appearance. */
  method GroupByKey(ops: seq<Op>) returns (keys: seq<Key>, groups: map<Key, seq<Buffer>>)
    ensures keys == KeyOrder(ops) && forall k :: k in keys <==> k in groups
    ensures forall k :: k in groups ==> groups[k] == Members(ops, k)
  {
    keys, groups := [], map[];
    for i := 0 to |ops|
      invariant keys == KeyOrder(ops[..i]) && forall k :: k in keys <==> k in groups
      invariant forall k :: k in groups ==> groups[k] == Members(ops[..i], k)
      invariant forall k :: k !in groups ==> Members(ops[..i], k) == []
    {
      assert ops[..i + 1][..i] == ops[..i];
      if ops[i].Constant? {
        var key := KeyOf(ops[i].scalar);
        if key in groups {
          groups := groups[key := groups[key] + [ops[i].name]];
        } else {
          keys, groups := keys + [key], groups[key := [ops[i].name]];
        }
      }
    }
    assert ops[..|ops|] == ops;
  }

  // --- The index against a rescan ---

  lemma {:induction false} ReadersSame(ops: seq<Op>, ops': seq<Op>, b: Buffer)
    requires |ops| == |ops'|
    requires forall i :: 0 <= i < |ops| ==>
               ops[i].name == ops'[i].name && (ops[i].Computed? <==> ops'[i].Computed?) && (b in Reads(ops[i]) <==> b in Reads(ops'[i]))
    ensures Readers(ops, b) == Readers(ops', b)
  {
    if ops != [] {
      ReadersSame(ops[..|ops| - 1], ops'[..|ops| - 1], b);
    }
  }

  lemma {:induction false} ReadersConcat(ops: seq<Op>, more: seq<Op>, b: Buffer)
    ensures Readers(ops + more, b) == Readers(ops, b) + Readers(more, b)
    decreases |more|
  {
    if more == [] {
      assert ops + more == ops;
    } else {
      var n := |more| - 1;
      assert (ops + more)[..|ops + more| - 1] == ops + more[..n];
      ReadersConcat(ops, more[..n], b);
    }
  }

  /** Dropping operations that do not read a buffer does not change its readers. */
  lemma {:induction false} ReadersKeep(ops: seq<Op>, dropped: set<Buffer>, b: Buffer)
    requires forall op :: op in ops && op.name in dropped ==> b !in Reads(op)
    ensures Readers(Keep(ops, dropped), b) == Readers(ops, b)
  {
    if ops != [] {
      ReadersKeep(ops[1..], dropped, b);
      assert ops == [ops[0]] + ops[1..];
      ReadersConcat([ops[0]], ops[1..], b);
      if ops[0].name in dropped {
        assert Readers([ops[0]], b) == [];
      } else {
        ReadersConcat([ops[0]], Keep(ops[1..], dropped), b);
      }
    }
  }

  /** The one-sweep index names, for every duplicate, exactly the consumers that a live
      rescan just before its redirect would find. */
  lemma IndexIsRescan(ops: seq<Op>, outputs: set<Buffer>, n: nat)
    requires DistinctNames(ops) && n < |Pairs(ops)|
    ensures Readers(MergeAll(ops, outputs, Pairs(ops)[..n]), Pairs(ops)[n].0) == Readers(ops, Pairs(ops)[n].0)
  {
    var pairs := Pairs(ops);
    var done, d := pairs[..n], pairs[n].0;
    PairsMergeable(ops);
    MergeAllIs(ops, outputs, done);
    var all := RewriteAll(ops, outputs, done);
    forall i | 0 <= i < |ops| ensures d in Reads(all[i]) <==> d in Reads(ops[i]) {
      RescanSame(ops[i], outputs, done, d);
    }
    ReadersSame(ops, all, d);
    forall op | op in all && op.name in Dups(done) ensures d !in Reads(op) {
      var i :| 0 <= i < |all| && all[i] == op;
      DupIsConstant(ops, ops[i], done);
    }
    ReadersKeep(all, Dups(done), d);
  }

  lemma DupIsConstant(ops: seq<Op>, op: Op, done: seq<(Buffer, Buffer)>)
    requires DistinctNames(ops) && op in ops && op.name in Dups(done) && done <= Pairs(ops)
    ensures op.Constant?
  {
    var i :| 0 <= i < |done| && done[i].0 == op.name;
    assert done[i] == Pairs(ops)[i];
    var d, c := PairListed(ops, i);
    SameName(ops, d, op);
  }

  // --- The pass ---

  /** Patch the operations whose name is listed. */
  function PatchNamed(ops: seq<Op>, names: set<Buffer>, dup: Buffer, canonical: Buffer): (r: seq<Op>)
    ensures |r| == |ops|
    ensures forall i :: 0 <= i < |ops| ==> r[i] == if ops[i].name in names then Patch(ops[i], dup, canonical) else ops[i]
  {
    seq(|ops|, i requires 0 <= i < |ops| => if ops[i].name in names then Patch(ops[i], dup, canonical) else ops[i])
  }

  function NamesOf(consumers: seq<Consumer>): (s: set<Buffer>)
    ensures forall b :: b in s <==> exists i :: 0 <= i < |consumers| && consumers[i].name == b
  {
    set i | 0 <= i < |consumers| :: consumers[i].name
  }

  lemma NamesConcat(a: seq<Consumer>, b: seq<Consumer>)
    ensures NamesOf(a + b) == NamesOf(a) + NamesOf(b)
  {
    forall x | x in NamesOf(b) ensures x in NamesOf(a + b) {
      var i :| 0 <= i < |b| && b[i].name == x;
      assert (a + b)[|a| + i].name == x;
    }
    forall x | x in NamesOf(a) ensures x in NamesOf(a + b) {
      var i :| 0 <= i < |a| && a[i].name == x;
      assert (a + b)[i].name == x;
    }
  }

  lemma {:induction false} ReadersDistinct(ops: seq<Op>, b: Buffer)
    requires DistinctNames(ops)
    ensures forall i, j :: 0 <= i < j < |Readers(ops, b)| ==> Readers(ops, b)[i].name != Readers(ops, b)[j].name
  {
    if ops != [] {
      ReadersDistinct(ops[..|ops| - 1], b);
      NotReader(ops[..|ops| - 1], b, ops[|ops| - 1].name);
    }
  }

  lemma {:induction false} ReadersAre(ops: seq<Op>, b: Buffer, op: Op)
    requires DistinctNames(ops) && op in ops
    ensures op.name in NamesOf(Readers(ops, b)) <==> b in Reads(op)
  {
    var n := |ops| - 1;
    var before, last := Readers(ops[..n], b), ReaderAt(ops[n], b);
    NamesConcat(before, last);
    if op in ops[..n] {
      ReadersAre(ops[..n], b, op);
      assert op.name != ops[n].name;
    } else {
      assert b in Reads(op) ==> last[0].name == op.name;
      NotReader(ops[..n], b, op.name);
    }
  }

  lemma {:induction false} NotReader(ops: seq<Op>, b: Buffer, name: Buffer)
    requires forall i :: 0 <= i < |ops| ==> ops[i].name != name
    ensures name !in NamesOf(Readers(ops, b))
  {
    if ops != [] {
      var n := |ops| - 1;
      NotReader(ops[..n], b, name);
      var before, last := Readers(ops[..n], b), ReaderAt(ops[n], b);
      NamesConcat(before, last);
    }
  }

  /** Patching every reader once is the redirect. */
  lemma PatchReaders(ops: seq<Op>, dup: Buffer, canonical: Buffer)
    requires DistinctNames(ops)
    ensures PatchNamed(ops, NamesOf(Readers(ops, dup)), dup, canonical) == Redirect(ops, dup, canonical)
  {
    forall i | 0 <= i < |ops| ensures ops[i].name in NamesOf(Readers(ops, dup)) <==> dup in Reads(ops[i]) {
      ReadersAre(ops, dup, ops[i]);
    }
  }

  /** Every indexed consumer can be rewritten. */
  ghost predicate AllComputed(consumers: seq<Consumer>) {
    forall i :: 0 <= i < |consumers| ==> consumers[i].computed
  }

  /** The readers of one duplicate can be rewritten. */
  ghost predicate PairSupported(ops: seq<Op>, outputs: set<Buffer>, n: nat)
    requires n < |Pairs(ops)|
  {
    Pairs(ops)[n].0 in outputs || AllComputed(Readers(ops, Pairs(ops)[n].0))
  }

  lemma ComputedConcat(a: seq<Consumer>, b: seq<Consumer>)
    ensures AllComputed(a + b) <==> AllComputed(a) && AllComputed(b)
  {
    if AllComputed(a + b) {
      assert forall i :: 0 <= i < |a| ==> (a + b)[i] == a[i];
      assert forall i :: 0 <= i < |b| ==> (a + b)[|a| + i] == b[i];
    }
  }

  lemma {:induction false} ComputedReaders(ops: seq<Op>, b: Buffer)
    ensures AllComputed(Readers(ops, b)) <==> forall op :: op in ops && b in Reads(op) ==> op.Computed?
  {
    if ops != [] {
      var n := |ops| - 1;
      ComputedReaders(ops[..n], b);
      ComputedConcat(Readers(ops[..n], b), ReaderAt(ops[n], b));
      assert b in Reads(ops[n]) ==> ReaderAt(ops[n], b)[0].computed == ops[n].Computed?;
      assert forall op :: op in ops <==> op in ops[..n] || op == ops[n];
    }
  }

  lemma SupportedIff(ops: seq<Op>, outputs: set<Buffer>)
    ensures Supported(ops, outputs) <==> forall n :: 0 <= n < |Pairs(ops)| ==> PairSupported(ops, outputs, n)
  {
    forall n | 0 <= n < |Pairs(ops)|
      ensures PairSupported(ops, outputs, n) <==>
              (Pairs(ops)[n].0 !in outputs ==> forall op :: op in ops && Pairs(ops)[n].0 in Reads(op) ==> op.Computed?)
    {
      ComputedReaders(ops, Pairs(ops)[n].0);
    }
  }

  /** Constants read nothing, so a pair's two constants are never consumers. */
  lemma ConstantsAreNoReaders(ops: seq<Op>, n: nat, d: Buffer)
    requires DistinctNames(ops) && n < |Pairs(ops)|
    ensures Pairs(ops)[n].0 !in NamesOf(Readers(ops, d)) && Pairs(ops)[n].1 !in NamesOf(Readers(ops, d))
  {
    var dup, canonical := PairListed(ops, n);
    ReadersAre(ops, d, dup);
    ReadersAre(ops, d, canonical);
  }

  lemma MergedDistinct(ops: seq<Op>, outputs: set<Buffer>, pairs: seq<(Buffer, Buffer)>)
    requires DistinctNames(ops)
    ensures DistinctNames(MergeAll(ops, outputs, pairs))
  {
    MergeAllIs(ops, outputs, pairs);
    KeepDistinct(RewriteAll(ops, outputs, pairs), Dups(pairs));
  }

  /** The index holds the readers of every duplicate that is redirected. */
  ghost predicate Indexed(ops: seq<Op>, outputs: set<Buffer>, index: Index) {
    forall n :: 0 <= n < |Pairs(ops)| ==>
      Lookup(index, Pairs(ops)[n].0) == if Pairs(ops)[n].0 in outputs then [] else Readers(ops, Pairs(ops)[n].0)
  }

  lemma {:induction false} GroupsNonEmpty(ops: seq<Op>)
    ensures forall k :: k in KeyOrder(ops) ==> Members(ops, k) != []
  {
    if ops != [] {
      GroupsNonEmpty(ops[..|ops| - 1]);
    }
  }

  /** The duplicates whose readers are indexed: those that are no graph output. */
  method CollectDuplicates(ops: seq<Op>, keys: seq<Key>, groups: map<Key, seq<Buffer>>, outputs: set<Buffer>)
    returns (duplicates: set<Buffer>)
    requires keys == KeyOrder(ops) && forall k :: k in keys ==> k in groups && groups[k] == Members(ops, k)
    ensures duplicates == Dups(Pairs(ops)) - outputs
  {
    duplicates := {};
    ghost var parts := PairsUnder(ops, keys);
    for i := 0 to |keys|
      invariant duplicates == Dups(Flatten(parts[..i])) - outputs
    {
      var group := groups[keys[i]];
      ghost var start := duplicates;
      var later := Later(group);
      duplicates := duplicates + (Dups(later) - outputs);
      assert parts[..i + 1][..i] == parts[..i];
      DupsConcat(Flatten(parts[..i]), later);
    }
    assert parts[..|keys|] == parts;
  }

  lemma DupsConcat(a: seq<(Buffer, Buffer)>, b: seq<(Buffer, Buffer)>)
    ensures Dups(a + b) == Dups(a) + Dups(b)
  {
    forall x | x in Dups(b) ensures x in Dups(a + b) {
      var i :| 0 <= i < |b| && b[i].0 == x;
      assert (a + b)[|a| + i].0 == x;
    }
    forall x | x in Dups(a) ensures x in Dups(a + b) {
      var i :| 0 <= i < |a| && a[i].0 == x;
      assert (a + b)[i].0 == x;
    }
  }

  lemma IndexCovers(ops: seq<Op>, outputs: set<Buffer>, duplicates: set<Buffer>, index: Index)
    requires duplicates == Dups(Pairs(ops)) - outputs && index.Keys <= duplicates
    requires forall d :: d in duplicates ==> Lookup(index, d) == Readers(ops, d)
    ensures Indexed(ops, outputs, index)
  {
    forall n | 0 <= n < |Pairs(ops)| ensures Pairs(ops)[n].0 in Dups(Pairs(ops)) {
    }
  }
}
