/** The users table through deduplication: who uses a duplicate becomes a user of its
    canonical constant (`_drop_constant` of `torch_spyre/_inductor/dedup_constants.py`). */
module DedupUsers {
  import opened DedupConstants

  /** The users of a dropped constant become users of its canonical constant. */
  function MergeUsers(users: map<Buffer, seq<Buffer>>, dup: Buffer, canonical: Buffer): map<Buffer, seq<Buffer>> {
    var extra := if dup in users then users[dup] else [];
    var rest := users - {dup};
    if extra == [] then rest
    else rest[canonical := (if canonical in rest then rest[canonical] else []) + extra]
  }

  function MergeAllUsers(users: map<Buffer, seq<Buffer>>, pairs: seq<(Buffer, Buffer)>): map<Buffer, seq<Buffer>> {
    if pairs == [] then users
    else MergeUsers(MergeAllUsers(users, pairs[..|pairs| - 1]), pairs[|pairs| - 1].0, pairs[|pairs| - 1].1)
  }

  function UsersOf(users: map<Buffer, seq<Buffer>>, b: Buffer): seq<Buffer> {
    if b in users then users[b] else []
  }

  /** The users of the duplicates of one constant, in merge order. */
  function Inherited(users: map<Buffer, seq<Buffer>>, pairs: seq<(Buffer, Buffer)>, canonical: Buffer): seq<Buffer> {
    if pairs == [] then []
    else
      var n := |pairs| - 1;
      Inherited(users, pairs[..n], canonical) + if pairs[n].1 == canonical then UsersOf(users, pairs[n].0) else []
  }

  lemma OneMerged(users: map<Buffer, seq<Buffer>>, dup: Buffer, canonical: Buffer, b: Buffer)
    requires dup != canonical
    ensures dup !in MergeUsers(users, dup, canonical)
    ensures b != dup ==> (UsersOf(MergeUsers(users, dup, canonical), b)
                          == UsersOf(users, b) + if b == canonical then UsersOf(users, dup) else [])
    ensures b != dup ==> (b in MergeUsers(users, dup, canonical) <==>
                          b in users || (b == canonical && UsersOf(users, dup) != []))
  {
  }

  lemma NotYetMerged(users: map<Buffer, seq<Buffer>>, pairs: seq<(Buffer, Buffer)>)
    requires pairs != [] && Mergeable(pairs)
    ensures Mergeable(pairs[..|pairs| - 1])
    ensures pairs[|pairs| - 1].0 !in Dups(pairs[..|pairs| - 1]) && pairs[|pairs| - 1].1 !in Dups(pairs)
    ensures Inherited(users, pairs[..|pairs| - 1], pairs[|pairs| - 1].0) == []
  {
    var n := |pairs| - 1;
    NotCanonical(users, pairs[..n], pairs[n].0);
  }

  lemma {:induction false} NotCanonical(users: map<Buffer, seq<Buffer>>, pairs: seq<(Buffer, Buffer)>, b: Buffer)
    requires forall i :: 0 <= i < |pairs| ==> pairs[i].1 != b
    ensures Inherited(users, pairs, b) == []
  {
    if pairs != [] {
      NotCanonical(users, pairs[..|pairs| - 1], b);
    }
  }

  /** No duplicate keeps an entry; every other buffer keeps its users, followed by those
      of its duplicates in merge order. */
  lemma {:induction false} MergedUsers(users: map<Buffer, seq<Buffer>>, pairs: seq<(Buffer, Buffer)>, b: Buffer)
    requires Mergeable(pairs)
    ensures b in Dups(pairs) ==> b !in MergeAllUsers(users, pairs)
    ensures b !in Dups(pairs) ==> UsersOf(MergeAllUsers(users, pairs), b) == UsersOf(users, b) + Inherited(users, pairs, b)
    ensures b !in Dups(pairs) ==> (b in MergeAllUsers(users, pairs) <==> b in users || Inherited(users, pairs, b) != [])
    decreases |pairs|
  {
    if pairs != [] {
      var n := |pairs| - 1;
      NotYetMerged(users, pairs);
      DupsNext(pairs);
      MergedUsers(users, pairs[..n], b);
      MergedUsers(users, pairs[..n], pairs[n].0);
      OneMerged(MergeAllUsers(users, pairs[..n]), pairs[n].0, pairs[n].1, b);
      if b !in Dups(pairs) {
        OneMoreUser(UsersOf(users, b), Inherited(users, pairs[..n], b),
                    if pairs[n].1 == b then UsersOf(users, pairs[n].0) else []);
      }
    }
  }

  lemma OneMoreUser(a: seq<Buffer>, b: seq<Buffer>, c: seq<Buffer>)
    ensures (a + b) + c == a + (b + c)
  {
  }
}
