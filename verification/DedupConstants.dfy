/** Merging equal constants and moving them to the front of the operation list
    (`torch_spyre/_inductor/dedup_constants.py`). */
module DedupConstants {
  import opened Arith

  datatype Buffer = Buffer(name: string)

  /** A number as it is written into the program. The not-a-numbers are told apart, as
      objects are. */
  datatype Number = Finite(value: real) | NegativeZero | Infinite(positive: bool) | NotANumber(identity: int)

  /** A constant: its number, and its dtype and device by number. */
  datatype Scalar = Scalar(number: Number, dtype: int, device: int)

  /** Zero and negative zero compare equal. */
  function Compared(n: Number): Number {
    if n == NegativeZero then Finite(0.0) else n
  }

  /** The identity under which constants are grouped. */
  type Key = Scalar

  function KeyOf(s: Scalar): Key {
    s.(number := Compared(s.number))
  }

  /** Reads are given as the names the body mentions; a computed buffer's body is
      wrapped in renamings, the earliest one applied first. */
  datatype Op =
    | Constant(name: Buffer, scalar: Scalar)
    | Computed(name: Buffer, raw: set<Buffer>, patches: seq<(Buffer, Buffer)>)
    | Other(name: Buffer, raw: set<Buffer>)

  function Swap(b: Buffer, from: Buffer, to: Buffer): Buffer {
    if b == from then to else b
  }

  function Apply(patches: seq<(Buffer, Buffer)>, b: Buffer): Buffer {
    if patches == [] then b else Apply(patches[1..], Swap(b, patches[0].0, patches[0].1))
  }

  lemma {:induction false} ApplyLast(patches: seq<(Buffer, Buffer)>, last: (Buffer, Buffer), b: Buffer)
    ensures Apply(patches + [last], b) == Swap(Apply(patches, b), last.0, last.1)
  {
    if patches == [] {
      assert patches + [last] == [last] && [last][1..] == [];
    } else {
      assert (patches + [last])[1..] == patches[1..] + [last];
      ApplyLast(patches[1..], last, Swap(b, patches[0].0, patches[0].1));
    }
  }

  /** The buffer that a name the body mentions really reads. */
  function Target(op: Op, b: Buffer): Buffer {
    if op.Computed? then Apply(op.patches, b) else b
  }

  function Reads(op: Op): set<Buffer> {
    if op.Constant? then {} else set b | b in op.raw :: Target(op, b)
  }

  predicate DistinctNames(ops: seq<Op>) {
    forall i, j :: 0 <= i < j < |ops| ==> ops[i].name != ops[j].name
  }

  // --- One duplicate, with a live rescan of its readers ---

  function Patch(op: Op, dup: Buffer, canonical: Buffer): Op {
    if op.Computed? then op.(patches := op.patches + [(dup, canonical)]) else op
  }

  function RedirectOne(op: Op, dup: Buffer, canonical: Buffer): Op {
    if dup in Reads(op) then Patch(op, dup, canonical) else op
  }

  function Redirect(ops: seq<Op>, dup: Buffer, canonical: Buffer): (r: seq<Op>)
    ensures |r| == |ops| && forall i :: 0 <= i < |ops| ==> r[i] == RedirectOne(ops[i], dup, canonical)
  {
    seq(|ops|, i requires 0 <= i < |ops| => RedirectOne(ops[i], dup, canonical))
  }

  function Drop(ops: seq<Op>, name: Buffer): (r: seq<Op>)
    ensures forall op :: op in r <==> op in ops && op.name != name
  {
    if ops == [] then [] else if ops[0].name == name then Drop(ops[1..], name) else [ops[0]] + Drop(ops[1..], name)
  }

  function Merge(ops: seq<Op>, outputs: set<Buffer>, dup: Buffer, canonical: Buffer): seq<Op> {
    Drop(if dup in outputs then ops else Redirect(ops, dup, canonical), dup)
  }

  /** All duplicates, one after the other. */
  function MergeAll(ops: seq<Op>, outputs: set<Buffer>, pairs: seq<(Buffer, Buffer)>): seq<Op> {
    if pairs == [] then ops
    else
      var n := |pairs| - 1;
      Merge(MergeAll(ops, outputs, pairs[..n]), outputs, pairs[n].0, pairs[n].1)
  }

  /** A patched consumer reads the canonical constant instead of the duplicate. */
  lemma PatchedReads(op: Op, dup: Buffer, canonical: Buffer)
    requires op.Computed?
    ensures forall b :: Target(Patch(op, dup, canonical), b) == Swap(Target(op, b), dup, canonical)
    ensures forall b :: b in Reads(Patch(op, dup, canonical)) <==>
              exists r :: r in Reads(op) && b == Swap(r, dup, canonical)
  {
    forall b ensures Target(Patch(op, dup, canonical), b) == Swap(Target(op, b), dup, canonical) {
      ApplyLast(op.patches, (dup, canonical), b);
    }
    forall r | r in Reads(op) ensures Swap(r, dup, canonical) in Reads(Patch(op, dup, canonical)) {
      var b :| b in op.raw && Target(op, b) == r;
      assert Target(Patch(op, dup, canonical), b) == Swap(r, dup, canonical);
    }
    forall b | b in Reads(Patch(op, dup, canonical)) ensures exists r :: r in Reads(op) && b == Swap(r, dup, canonical) {
      var a :| a in op.raw && Target(Patch(op, dup, canonical), a) == b;
      assert Target(op, a) in Reads(op);
    }
  }

  /** Redirecting one duplicate does not change who reads another. */
  lemma RedirectKeepsReaders(op: Op, dup: Buffer, canonical: Buffer, other: Buffer)
    requires other != dup && other != canonical
    ensures other in Reads(RedirectOne(op, dup, canonical)) <==> other in Reads(op)
  {
    if op.Computed? {
      PatchedReads(op, dup, canonical);
    }
  }

  // --- Groups of equal constants ---

  /** The names of the constants with one key, in order. */
  function Members(ops: seq<Op>, key: Key): seq<Buffer> {
    if ops == [] then []
    else
      var n := |ops| - 1;
      Members(ops[..n], key) + if HasKey(ops[n], key) then [ops[n].name] else []
  }

  predicate HasKey(op: Op, key: Key) {
    op.Constant? && KeyOf(op.scalar) == key
  }

  /** b is the name of a constant with this key. */
  ghost predicate Listed(ops: seq<Op>, b: Buffer, key: Key) {
    exists i :: 0 <= i < |ops| && ops[i].name == b && HasKey(ops[i], key)
  }

  lemma ListedNext(ops: seq<Op>, b: Buffer, key: Key)
    requires ops != []
    ensures var n := |ops| - 1;
            Listed(ops, b, key) <==> Listed(ops[..n], b, key) || (ops[n].name == b && HasKey(ops[n], key))
  {
    var n := |ops| - 1;
    if Listed(ops[..n], b, key) {
      var i :| 0 <= i < n && ops[..n][i].name == b && HasKey(ops[..n][i], key);
      assert ops[i].name == b && HasKey(ops[i], key);
    }
    if Listed(ops, b, key) {
      var i :| 0 <= i < |ops| && ops[i].name == b && HasKey(ops[i], key);
      assert i < n ==> ops[..n][i] == ops[i];
    }
  }

  lemma {:induction false} MembersAre(ops: seq<Op>, key: Key, b: Buffer)
    ensures b in Members(ops, key) <==> Listed(ops, b, key)
  {
    if ops != [] {
      ListedNext(ops, b, key);
      MembersAre(ops[..|ops| - 1], key, b);
    }
  }

  /** The keys, in order of first appearance. */
  function KeyOrder(ops: seq<Op>): seq<Key> {
    if ops == [] then []
    else
      var n := |ops| - 1;
      var keys := KeyOrder(ops[..n]);
      if ops[n].Constant? && KeyOf(ops[n].scalar) !in keys then keys + [KeyOf(ops[n].scalar)] else keys
  }

  lemma {:induction false} KeyListed(ops: seq<Op>, b: Buffer, key: Key)
    requires Listed(ops, b, key)
    ensures key in KeyOrder(ops)
  {
    ListedNext(ops, b, key);
    if Listed(ops[..|ops| - 1], b, key) {
      KeyListed(ops[..|ops| - 1], b, key);
    }
  }

  /** The later members of a group, each with the first. */
  function Later(names: seq<Buffer>): (pairs: seq<(Buffer, Buffer)>)
    ensures |pairs| == if names == [] then 0 else |names| - 1
    ensures forall i :: 0 <= i < |pairs| ==> pairs[i] == (names[i + 1], names[0])
  {
    if names == [] then [] else seq(|names| - 1, i requires 0 <= i < |names| - 1 => (names[i + 1], names[0]))
  }

  /** The later members of each group. */
  function PairsUnder(ops: seq<Op>, keys: seq<Key>): (parts: seq<seq<(Buffer, Buffer)>>)
    ensures |parts| == |keys| && forall i :: 0 <= i < |keys| ==> parts[i] == Later(Members(ops, keys[i]))
  {
    seq(|keys|, i requires 0 <= i < |keys| => Later(Members(ops, keys[i])))
  }

  /** Every duplicate with its canonical constant, in the order they are merged. */
  function Pairs(ops: seq<Op>): seq<(Buffer, Buffer)> {
    Flatten(PairsUnder(ops, KeyOrder(ops)))
  }

  ghost predicate IsFirst(ops: seq<Op>, key: Key, c: Buffer) {
    Members(ops, key) != [] && c == Members(ops, key)[0]
  }

  ghost predicate DupUnder(ops: seq<Op>, key: Key, d: Buffer, c: Buffer) {
    Listed(ops, d, key) && IsFirst(ops, key, c) && d != c
  }

  /** d is a later constant with the same key as the first such constant c. */
  ghost predicate IsDup(ops: seq<Op>, d: Buffer, c: Buffer) {
    exists key :: DupUnder(ops, key, d, c)
  }

  lemma SameName(ops: seq<Op>, a: Op, b: Op)
    requires DistinctNames(ops) && a in ops && b in ops && a.name == b.name
    ensures a == b
  {
    var i :| 0 <= i < |ops| && ops[i] == a;
    var j :| 0 <= j < |ops| && ops[j] == b;
    assert i == j;
  }

  /** A name has at most one key. */
  lemma SameKey(ops: seq<Op>, b: Buffer, key: Key, key': Key)
    requires DistinctNames(ops) && Listed(ops, b, key) && Listed(ops, b, key')
    ensures key == key'
  {
    var i :| 0 <= i < |ops| && ops[i].name == b && HasKey(ops[i], key);
    var j :| 0 <= j < |ops| && ops[j].name == b && HasKey(ops[j], key');
    assert i == j;
  }

  lemma {:induction false} MembersDistinct(ops: seq<Op>, key: Key)
    requires DistinctNames(ops)
    ensures Distinct(Members(ops, key))
  {
    if ops != [] {
      var n := |ops| - 1;
      MembersDistinct(ops[..n], key);
      var before := Members(ops[..n], key);
      forall i | 0 <= i < |before| ensures before[i] != ops[n].name {
        MembersAre(ops[..n], key, before[i]);
        var k :| 0 <= k < n && ops[..n][k].name == before[i] && HasKey(ops[..n][k], key);
      }
    }
  }

  lemma LaterAre(ops: seq<Op>, key: Key, d: Buffer, c: Buffer)
    requires DistinctNames(ops)
    ensures (d, c) in Later(Members(ops, key)) <==> DupUnder(ops, key, d, c)
  {
    var names := Members(ops, key);
    MembersDistinct(ops, key);
    MembersAre(ops, key, d);
    if DupUnder(ops, key, d, c) {
      var i :| 0 <= i < |names| && names[i] == d;
      assert Later(names)[i - 1] == (d, c);
    }
    if (d, c) in Later(names) {
      var i :| 0 <= i < |Later(names)| && Later(names)[i] == (d, c);
      assert names[i + 1] in names;
    }
  }

  lemma PairsAre(ops: seq<Op>, d: Buffer, c: Buffer)
    requires DistinctNames(ops)
    ensures (d, c) in Pairs(ops) <==> IsDup(ops, d, c)
  {
    var keys := KeyOrder(ops);
    var parts := PairsUnder(ops, keys);
    InFlatten(parts, (d, c));
    if (d, c) in Pairs(ops) {
      var i :| 0 <= i < |parts| && (d, c) in parts[i];
      LaterAre(ops, keys[i], d, c);
    }
    if IsDup(ops, d, c) {
      var key :| DupUnder(ops, key, d, c);
      LaterAre(ops, key, d, c);
      KeyListed(ops, d, key);
      var i :| 0 <= i < |keys| && keys[i] == key;
      assert (d, c) in parts[i];
    }
  }

  /** Canonical constants are never duplicates, and a duplicate has one canonical. */
  lemma DupsAreNotCanonical(ops: seq<Op>, d: Buffer, c: Buffer, d': Buffer, c': Buffer)
    requires DistinctNames(ops) && IsDup(ops, d, c) && IsDup(ops, d', c')
    ensures c != d' && (d == d' ==> c == c')
  {
    var key :| DupUnder(ops, key, d, c);
    var key' :| DupUnder(ops, key', d', c');
    MembersAre(ops, key, c);
    if c == d' {
      SameKey(ops, c, key, key');
    } else if d == d' {
      SameKey(ops, d, key, key');
    }
  }

  // --- Many duplicates: what one operation becomes ---

  function Rewrite(op: Op, outputs: set<Buffer>, pairs: seq<(Buffer, Buffer)>): (r: Op)
    ensures r.name == op.name && (r.Constant? <==> op.Constant?) && (r.Computed? <==> op.Computed?)
    ensures !op.Computed? ==> r == op
    ensures op.Computed? ==> r.raw == op.raw
    decreases |pairs|
  {
    if pairs == [] then op
    else
      var n := |pairs| - 1;
      var done := Rewrite(op, outputs, pairs[..n]);
      if pairs[n].0 in outputs then done else RedirectOne(done, pairs[n].0, pairs[n].1)
  }

  function RewriteAll(ops: seq<Op>, outputs: set<Buffer>, pairs: seq<(Buffer, Buffer)>): (r: seq<Op>)
    ensures |r| == |ops| && forall i :: 0 <= i < |ops| ==> r[i] == Rewrite(ops[i], outputs, pairs)
  {
    seq(|ops|, i requires 0 <= i < |ops| => Rewrite(ops[i], outputs, pairs))
  }

  function Dups(pairs: seq<(Buffer, Buffer)>): (s: set<Buffer>)
    ensures forall b :: b in s <==> exists i :: 0 <= i < |pairs| && pairs[i].0 == b
  {
    set i | 0 <= i < |pairs| :: pairs[i].0
  }

  /** The operations whose name is not dropped. */
  function Keep(ops: seq<Op>, dropped: set<Buffer>): (kept: seq<Op>)
    ensures forall op :: op in kept <==> op in ops && op.name !in dropped
  {
    if ops == [] then []
    else if ops[0].name in dropped then Keep(ops[1..], dropped)
    else [ops[0]] + Keep(ops[1..], dropped)
  }

  lemma {:induction false} DropKeep(ops: seq<Op>, dropped: set<Buffer>, name: Buffer)
    ensures Drop(Keep(ops, dropped), name) == Keep(ops, dropped + {name})
  {
    if ops != [] {
      DropKeep(ops[1..], dropped, name);
      if ops[0].name !in dropped {
        assert Keep(ops, dropped)[1..] == Keep(ops[1..], dropped);
      }
    }
  }

  lemma {:induction false} RedirectKeep(ops: seq<Op>, dropped: set<Buffer>, dup: Buffer, canonical: Buffer)
    ensures Redirect(Keep(ops, dropped), dup, canonical) == Keep(Redirect(ops, dup, canonical), dropped)
  {
    if ops != [] {
      RedirectKeep(ops[1..], dropped, dup, canonical);
      assert Redirect(ops, dup, canonical)[1..] == Redirect(ops[1..], dup, canonical);
      if ops[0].name !in dropped {
        assert Redirect(Keep(ops, dropped), dup, canonical)
            == [RedirectOne(ops[0], dup, canonical)] + Redirect(Keep(ops[1..], dropped), dup, canonical);
      }
    }
  }

  lemma {:induction false} KeepNone(ops: seq<Op>)
    ensures Keep(ops, {}) == ops
  {
    if ops != [] {
      KeepNone(ops[1..]);
    }
  }

  lemma RewriteNext(ops: seq<Op>, outputs: set<Buffer>, pairs: seq<(Buffer, Buffer)>)
    requires pairs != []
    ensures var n := |pairs| - 1;
            var before := RewriteAll(ops, outputs, pairs[..n]);
            RewriteAll(ops, outputs, pairs)
            == if pairs[n].0 in outputs then before else Redirect(before, pairs[n].0, pairs[n].1)
  {
  }

  lemma DupsNext(pairs: seq<(Buffer, Buffer)>)
    requires pairs != []
    ensures Dups(pairs) == Dups(pairs[..|pairs| - 1]) + {pairs[|pairs| - 1].0}
  {
  }

  /** Merging one duplicate at a time is rewriting each operation and dropping the
      duplicates. */
  lemma {:induction false} MergeAllIs(ops: seq<Op>, outputs: set<Buffer>, pairs: seq<(Buffer, Buffer)>)
    ensures MergeAll(ops, outputs, pairs) == Keep(RewriteAll(ops, outputs, pairs), Dups(pairs))
    decreases |pairs|
  {
    if pairs == [] {
      assert Dups(pairs) == {} && RewriteAll(ops, outputs, pairs) == ops;
      KeepNone(ops);
    } else {
      var n := |pairs| - 1;
      MergeAllIs(ops, outputs, pairs[..n]);
      var before, dropped := RewriteAll(ops, outputs, pairs[..n]), Dups(pairs[..n]);
      DupsNext(pairs);
      RewriteNext(ops, outputs, pairs);
      RedirectKeep(before, dropped, pairs[n].0, pairs[n].1);
      DropKeep(RewriteAll(ops, outputs, pairs), dropped, pairs[n].0);
    }
  }

  // --- The pairs do not interfere ---

  /** No canonical constant is a duplicate, and no duplicate is listed twice. */
  ghost predicate Mergeable(pairs: seq<(Buffer, Buffer)>) {
    && (forall i, j :: 0 <= i < |pairs| && 0 <= j < |pairs| ==> pairs[i].1 != pairs[j].0)
    && (forall i, j :: 0 <= i < j < |pairs| ==> pairs[i].0 != pairs[j].0)
  }

  lemma {:induction false} KeysDistinct(ops: seq<Op>)
    ensures Distinct(KeyOrder(ops))
  {
    if ops != [] {
      KeysDistinct(ops[..|ops| - 1]);
    }
  }

  lemma PartsDisjoint(ops: seq<Op>, i: nat, j: nat, pair: (Buffer, Buffer))
    requires DistinctNames(ops) && i < j < |KeyOrder(ops)|
    requires pair in PairsUnder(ops, KeyOrder(ops))[i]
    ensures pair !in PairsUnder(ops, KeyOrder(ops))[j]
  {
    var keys := KeyOrder(ops);
    KeysDistinct(ops);
    LaterAre(ops, keys[i], pair.0, pair.1);
    LaterAre(ops, keys[j], pair.0, pair.1);
    if pair in PairsUnder(ops, keys)[j] {
      SameKey(ops, pair.0, keys[i], keys[j]);
    }
  }

  lemma PairsDistinct(ops: seq<Op>)
    requires DistinctNames(ops)
    ensures Distinct(Pairs(ops))
  {
    var keys := KeyOrder(ops);
    var parts := PairsUnder(ops, keys);
    forall i | 0 <= i < |parts| ensures Distinct(parts[i]) {
      MembersDistinct(ops, keys[i]);
    }
    forall i, j, x | 0 <= i < j < |parts| && x in parts[i] ensures x !in parts[j] {
      PartsDisjoint(ops, i, j, x);
    }
    FlattenDistinct(parts);
  }

  lemma PairsMergeable(ops: seq<Op>)
    requires DistinctNames(ops)
    ensures Mergeable(Pairs(ops))
  {
    var pairs := Pairs(ops);
    PairsDistinct(ops);
    forall i, j | 0 <= i < |pairs| && 0 <= j < |pairs|
      ensures pairs[i].1 != pairs[j].0 && (i != j ==> pairs[i].0 != pairs[j].0)
    {
      PairsAre(ops, pairs[i].0, pairs[i].1);
      PairsAre(ops, pairs[j].0, pairs[j].1);
      assert pairs[i] in pairs && pairs[j] in pairs;
      DupsAreNotCanonical(ops, pairs[i].0, pairs[i].1, pairs[j].0, pairs[j].1);
    }
  }

  // --- Reads and values of a rewritten operation ---

  /** A rescan before any later redirect finds the readers the first sweep found. */
  lemma {:induction false} RescanSame(op: Op, outputs: set<Buffer>, pairs: seq<(Buffer, Buffer)>, other: Buffer)
    requires forall i :: 0 <= i < |pairs| ==> pairs[i].0 != other && pairs[i].1 != other
    ensures other in Reads(Rewrite(op, outputs, pairs)) <==> other in Reads(op)
    decreases |pairs|
  {
    if pairs != [] {
      var n := |pairs| - 1;
      RescanSame(op, outputs, pairs[..n], other);
      RedirectKeepsReaders(Rewrite(op, outputs, pairs[..n]), pairs[n].0, pairs[n].1, other);
    }
  }

  lemma RedirectedReads(op: Op, dup: Buffer, canonical: Buffer, b: Buffer)
    requires dup != canonical
    ensures op.Computed? ==> dup !in Reads(RedirectOne(op, dup, canonical))
    ensures b in Reads(RedirectOne(op, dup, canonical)) ==> b in Reads(op) || b == canonical
  {
    if op.Computed? {
      PatchedReads(op, dup, canonical);
    }
  }

  /** A rewritten computed buffer reads no duplicate. */
  lemma {:induction false} NoDupRead(op: Op, outputs: set<Buffer>, pairs: seq<(Buffer, Buffer)>, i: nat)
    requires Mergeable(pairs) && op.Computed? && i < |pairs| && pairs[i].0 !in outputs
    ensures pairs[i].0 !in Reads(Rewrite(op, outputs, pairs))
    decreases |pairs|
  {
    var n := |pairs| - 1;
    var before := Rewrite(op, outputs, pairs[..n]);
    assert pairs[n].1 != pairs[n].0 && pairs[n].1 != pairs[i].0;
    RedirectedReads(before, pairs[n].0, pairs[n].1, pairs[i].0);
    if i < n {
      assert pairs[..n][i] == pairs[i];
      NoDupRead(op, outputs, pairs[..n], i);
    }
  }

  /** What a patch does to one name the body mentions. */
  lemma RedirectTarget(op: Op, dup: Buffer, canonical: Buffer, b: Buffer)
    requires op.Computed? && b in op.raw
    ensures RedirectOne(op, dup, canonical).Computed? && RedirectOne(op, dup, canonical).raw == op.raw
    ensures Target(RedirectOne(op, dup, canonical), b) == Swap(Target(op, b), dup, canonical)
  {
    PatchedReads(op, dup, canonical);
    assert Target(op, b) in Reads(op);
  }

  /** The names whose redirect has been done: each duplicate that is no output is
      replaced by its canonical constant, and nothing else changes. */
  lemma {:induction false} RewriteTarget(op: Op, outputs: set<Buffer>, pairs: seq<(Buffer, Buffer)>, b: Buffer)
    requires Mergeable(pairs) && op.Computed? && b in op.raw
    ensures Rewrite(op, outputs, pairs).Computed? && Rewrite(op, outputs, pairs).raw == op.raw
    ensures forall i :: 0 <= i < |pairs| && pairs[i].0 == Target(op, b) && pairs[i].0 !in outputs ==>
              Target(Rewrite(op, outputs, pairs), b) == pairs[i].1
    ensures (forall i :: 0 <= i < |pairs| ==> pairs[i].0 != Target(op, b) || pairs[i].0 in outputs) ==>
              Target(Rewrite(op, outputs, pairs), b) == Target(op, b)
    decreases |pairs|
  {
    if pairs != [] {
      var n := |pairs| - 1;
      var before := pairs[..n];
      RewriteTarget(op, outputs, before, b);
      RedirectTarget(Rewrite(op, outputs, before), pairs[n].0, pairs[n].1, b);
      forall i | 0 <= i < n && pairs[i].0 == Target(op, b) && pairs[i].0 !in outputs
        ensures Target(Rewrite(op, outputs, before), b) == pairs[i].1
      {
        assert before[i] == pairs[i];
      }
      if forall i :: 0 <= i < n ==> before[i].0 != Target(op, b) || before[i].0 in outputs {
        assert Target(Rewrite(op, outputs, before), b) == Target(op, b);
      }
    }
  }
}
