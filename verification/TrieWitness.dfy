/** Whole runs on a witness: a trie of which only parts are known, checked by its root hash alone. */
module TrieWitness {
  import opened Mpt
  import opened TrieMap
  import opened TrieRuns
  import opened TrieHash
  import opened TrieSparse
  import opened TrieCodec
  import opened TrieLoose

  /** No operation of the run stops at a digest. */
  ghost predicate Known(p: Node, ops: seq<Op>)
  {
    forall r :: r in Answers(p, ops) ==> !Unresolved(r)
  }

  /** The keys that the run deletes. */
  ghost function Removed(ops: seq<Op>): set<Key>
  {
    set op | op in ops && op.Remove? :: op.key
  }

  lemma ApplyCanon(n: Node, op: Op)
    requires Canon(n)
    ensures Canon(Apply(n, op).0) && (Full(n) ==> Full(Apply(n, op).0))
  {
    hide Canon, Full, InsertNibs, DeleteNibs;
    match op
    case Put(k, v) =>
      InsertUnchanged(n, k, v);
      if InsertNibs(n, k, v).1.Ok? { InsertCanon(n, k, v); }
    case Remove(k) => DeleteCanon(n, k);
  }

  lemma {:induction false} RunCanon(n: Node, ops: seq<Op>)
    requires Canon(n)
    ensures Canon(Run(n, ops)) && (Full(n) ==> Full(Run(n, ops)))
    decreases |ops|
  {
    hide Canon, Full, Apply;
    if ops != [] {
      ApplyCanon(n, ops[0]);
      RunCanon(Apply(n, ops[0]).0, ops[1..]);
    }
  }

  lemma ApplyLoose(H: Hasher, p: Node, t: Node, op: Op, gone: set<Key>)
    requires Canon(t) && Loose(H, p, t, [], gone) && !Unresolved(Apply(p, op).1) && (op.Remove? ==> op.key in gone)
    ensures Apply(p, op).1 == Apply(t, op).1 && Loose(H, Apply(p, op).0, Apply(t, op).0, [], gone)
  {
    hide Canon, Loose, InsertNibs, DeleteNibs;
    match op
    case Put(k, v) => InsertLoose(H, p, t, k, v, [], gone);
    case Remove(k) =>
      assert [] + k == k;
      DeleteLoose(H, p, t, k, [], gone);
  }

  /** Over every run that stops at no digest, blind or not, each answer is the full trie's. */
  lemma {:induction false} RunLoose(H: Hasher, p: Node, t: Node, ops: seq<Op>, gone: set<Key>)
    requires Canon(t) && Loose(H, p, t, [], gone) && Known(p, ops) && Removed(ops) <= gone
    ensures Answers(p, ops) == Answers(t, ops)
    ensures Loose(H, Run(p, ops), Run(t, ops), [], gone)
    decreases |ops|
  {
    if ops != [] {
      hide Canon, Loose, Apply, Unresolved;
      var (p', r) := Apply(p, ops[0]);
      assert Answers(p, ops)[0] == r;
      assert forall x :: x in Answers(p', ops[1..]) ==> x in Answers(p, ops);
      assert ops[0].Remove? ==> ops[0].key in Removed(ops);
      assert Removed(ops[1..]) <= Removed(ops);
      ApplyLoose(H, p, t, ops[0], gone);
      ApplyCanon(t, ops[0]);
      RunLoose(H, p', Apply(t, ops[0]).0, ops[1..], gone);
    }
  }

  /** Equal root hashes, for a loose form: exactly when it stands for the trie, and exactly when no node of it
      hangs. */
  lemma LooseRoot(H: Hasher, p: Node, t: Node, path: Key, gone: set<Key>)
    requires Loose(H, p, t, path, gone) && Canon(t) && Full(t) && Fits(H, p) && Fits(H, t) && CollisionFree(H, p, t)
    ensures HashOf(H, p) == HashOf(H, t) <==> Sparse(H, p, t)
    ensures HashOf(H, p) == HashOf(H, t) <==> !Hangs(p, t)
  {
    LooseExact(H, p, t, path, gone);
    LooseCanon(H, p, t, path, gone);
    CanonTagged(p);
    if p.Digest? {
      assert Sparse(H, p, t);
    }
    hide Canon, Full, Fits, CollisionFree, HashOf, Loose, Hangs, Tagged;
    if Sparse(H, p, t) {
      SparseReference(H, p, t);
    } else if HashOf(H, p) == HashOf(H, t) {
      RootBinds(H, p, t);
    }
  }

  /** Over every run that stops at no digest all answers are the full trie's, and the root hash after it is
      the full trie's if and only if no node hangs at the end; up to collisions among the nodes at the end. */
  lemma RunExact(H: Hasher, p: Node, t: Node, ops: seq<Op>)
    requires Canon(t) && Full(t) && Sparse(H, p, t) && Known(p, ops)
    requires Fits(H, Run(p, ops)) && Fits(H, Run(t, ops)) && CollisionFree(H, Run(p, ops), Run(t, ops))
    ensures Answers(p, ops) == Answers(t, ops)
    ensures HashOf(H, Run(p, ops)) == HashOf(H, Run(t, ops)) <==> !Hangs(Run(p, ops), Run(t, ops))
    ensures HashOf(H, Run(p, ops)) == HashOf(H, Run(t, ops)) <==> Sparse(H, Run(p, ops), Run(t, ops))
  {
    hide Canon, Full, Fits, CollisionFree, HashOf, Loose, Hangs, Sparse, Known, Run, Answers;
    var gone := Removed(ops);
    SparseIsLoose(H, p, t, [], gone);
    RunLoose(H, p, t, ops, gone);
    RunCanon(t, ops);
    LooseRoot(H, Run(p, ops), Run(t, ops), [], gone);
  }

  /** From the root hash alone: a witness with the full trie's root hash stands for it if and only if it is
      tagged. If it is, it gives the full trie's answers to all lookups and operations of every run that stops at
      no digest, and ends with its root hash if and only if no node hangs. */
  lemma WitnessRun(H: Hasher, p: Node, t: Node, ops: seq<Op>, q: Key)
    requires Canon(t) && Full(t) && Fits(H, p) && Fits(H, t) && CollisionFree(H, p, t)
    requires !p.Digest? && HashOf(H, p) == HashOf(H, t)
    ensures Sparse(H, p, t) <==> Tagged(p)
    ensures Tagged(p) && GetNibs(p, q).Ok? ==> GetNibs(p, q) == GetNibs(t, q)
    ensures Tagged(p) && Known(p, ops) ==> Answers(p, ops) == Answers(t, ops)
    ensures Tagged(p) && Known(p, ops) && GetNibs(Run(p, ops), q).Ok? ==>
      GetNibs(Run(p, ops), q) == GetNibs(Run(t, ops), q)
    ensures Tagged(p) && Known(p, ops) && Distinguished(H, Run(p, ops), Run(t, ops)) ==>
      (HashOf(H, Run(p, ops)) == HashOf(H, Run(t, ops)) <==> !Hangs(Run(p, ops), Run(t, ops)))
  {
    hide Canon, Full, Fits, CollisionFree, Sparse, HashOf, GetNibs, Loose, Hangs, Known, Run, Answers, Tagged;
    RootBinds(H, p, t);
    if Tagged(p) {
      if GetNibs(p, q).Ok? { GetSimulates(H, p, t, q); }
      if Known(p, ops) {
        SparseIsLoose(H, p, t, [], Removed(ops));
        RunLoose(H, p, t, ops, Removed(ops));
        if GetNibs(Run(p, ops), q).Ok? { GetLoose(H, Run(p, ops), Run(t, ops), q, [], Removed(ops)); }
        if Distinguished(H, Run(p, ops), Run(t, ops)) {
          RunExact(H, p, t, ops);
        }
      }
    }
  }
}
