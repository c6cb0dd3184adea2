/** Which nodes will hang, said of the input: a digest of the witness that hides a leaf or an extension, and that
    has no neighbour left at the end. */
module TrieHidden {
  import opened Bytes
  import opened HexPrefix
  import opened Mpt
  import opened TrieMap
  import opened TrieRuns
  import opened TrieHash
  import opened TrieSparse
  import opened TrieLoose
  import opened TrieWitness

  /** A lookup along this path first stops at a digest at its end. */
  predicate Stops(n: Node, s: Key)
  {
    GetNibs(n, s).Err? && (s != [] ==> GetNibs(n, s[..|s| - 1]).Ok?)
  }

  /** Two keys of the trie part right after this path. */
  ghost predicate Parts(t: Node, s: Key)
  {
    exists x: Key, y: Key :: Holds(t, x) && Holds(t, y) && PartAt(s, x, y)
  }

  /** Some key of the trie goes along this path and parts from it at its last nibble. */
  ghost predicate Accompanied(t: Node, s: Key)
  {
    exists k: Key :: Holds(t, k) && Beside(k, s)
  }

  /** The witness has a digest at this path, and the full trie no branch. */
  ghost predicate Hidden(p: Node, t: Node, s: Key)
  {
    s != [] && Stops(p, s) && !Parts(t, s)
  }

  // ----- Lookups that stop at a digest -----

  /** An insertion stops at a digest exactly where the lookup does. */
  lemma {:induction false} InsertStops(n: Node, k: Key, v: Value)
    ensures Unresolved(InsertNibs(n, k, v).1) <==> GetNibs(n, k).Err?
  {
    hide PrefixNibs, LeafAt, Fork;
    match n
    case Branch(cs) => if k != [] && cs[k[0]].Some? { InsertStops(cs[k[0]].value, k[1..], v); }
    case Extension(prefix, child) =>
      var nibs := PrefixNibs(prefix);
      if nibs <= k {
        assert Lcp(nibs, k) == |nibs|;
        InsertStops(child, k[|nibs|..], v);
      }
    case _ =>
  }

  /** So does a deletion. */
  lemma {:induction false} DeleteStops(n: Node, k: Key)
    ensures Unresolved(DeleteNibs(n, k).1) <==> GetNibs(n, k).Err?
  {
    hide PrefixNibs, Collapse, Rejoin;
    match n
    case Branch(cs) => if k != [] && cs[k[0]].Some? { DeleteStops(cs[k[0]].value, k[1..]); }
    case Extension(prefix, child) =>
      if PrefixNibs(prefix) <= k { DeleteStops(child, k[|PrefixNibs(prefix)|..]); }
    case _ =>
  }

  lemma ApplyStops(n: Node, op: Op)
    ensures Unresolved(Apply(n, op).1) <==> GetNibs(n, op.key).Err?
  {
    hide GetNibs, InsertNibs, DeleteNibs;
    match op
    case Put(k, v) => InsertStops(n, k, v);
    case Remove(k) => DeleteStops(n, k);
  }

  lemma {:induction false} StopsBelow(n: Node, s: Key, q: Key)
    requires GetNibs(n, s).Err?
    ensures GetNibs(n, s + q).Err?
  {
    hide PrefixNibs;
    match n
    case Branch(cs) =>
      assert (s + q)[1..] == s[1..] + q;
      StopsBelow(cs[s[0]].value, s[1..], q);
    case Extension(prefix, child) =>
      var nibs := PrefixNibs(prefix);
      assert (s + q)[|nibs|..] == s[|nibs|..] + q;
      StopsBelow(child, s[|nibs|..], q);
    case Digest(_) =>
  }

  /** What a lookup finds after an operation that was applied, other than under its own key. */
  lemma ApplyOthers(n: Node, op: Op, q: Key)
    requires Canon(n) && q != op.key
    ensures GetNibs(Apply(n, op).0, q) == GetNibs(n, q)
  {
    hide GetNibs, InsertNibs, DeleteNibs, Canon;
    match op
    case Put(k, v) =>
      InsertUnchanged(n, k, v);
      if InsertNibs(n, k, v).1.Ok? { GetAfterInsert(n, k, v, q); }
    case Remove(k) =>
      DeleteUnchanged(n, k);
      DeleteCanon(n, k);
      if DeleteNibs(n, k).1.Ok? { GetAfterDelete(n, k, q); }
  }

  /** No operation that stops at no digest moves, adds or removes one. */
  lemma ApplyKeepsStops(n: Node, op: Op, q: Key)
    requires Canon(n) && !Unresolved(Apply(n, op).1)
    ensures GetNibs(Apply(n, op).0, q).Err? <==> GetNibs(n, q).Err?
  {
    ApplyStops(n, op);
    hide GetNibs, InsertNibs, DeleteNibs, Canon;
    if q != op.key {
      ApplyOthers(n, op, q);
    } else {
      match op
      case Put(k, v) =>
        InsertUnchanged(n, k, v);
        if InsertNibs(n, k, v).1.Ok? { GetAfterInsert(n, k, v, q); }
      case Remove(k) =>
        DeleteUnchanged(n, k);
        DeleteCanon(n, k);
        if DeleteNibs(n, k).1.Ok? { GetAfterDelete(n, k, q); }
    }
  }

  /** Over a run that stops at no digest every digest stays where it is, and what lies below it in the full trie
      is untouched. */
  lemma {:induction false} RunKeepsStops(p: Node, t: Node, ops: seq<Op>, s: Key)
    requires Canon(p) && Canon(t) && Known(p, ops)
    ensures GetNibs(Run(p, ops), s).Err? <==> GetNibs(p, s).Err?
    ensures GetNibs(p, s).Err? ==> forall k: Key :: s <= k ==> GetNibs(Run(t, ops), k) == GetNibs(t, k)
    decreases |ops|
  {
    hide GetNibs, Canon, Apply, Unresolved;
    if ops != [] {
      var op, p', t' := ops[0], Apply(p, ops[0]).0, Apply(t, ops[0]).0;
      assert Answers(p, ops)[0] == Apply(p, op).1;
      assert forall x :: x in Answers(p', ops[1..]) ==> x in Answers(p, ops);
      ApplyKeepsStops(p, op, s);
      ApplyCanon(p, op);
      ApplyCanon(t, op);
      RunKeepsStops(p', t', ops[1..], s);
      if GetNibs(p, s).Err? {
        forall k: Key | s <= k ensures GetNibs(t', k) == GetNibs(t, k) {
          if k == op.key {
            assert k == s + k[|s|..];
            StopsBelow(p, s, k[|s|..]);
            ApplyStops(p, op);
          } else {
            ApplyOthers(t, op, k);
          }
        }
      }
    }
  }

  // ----- Below a step -----

  /** `c` is what `n` is below `step`. */
  ghost predicate Under(n: Node, step: Key, c: Node)
  {
    forall q: Key :: GetNibs(n, step + q) == GetNibs(c, q)
  }

  lemma StopsUnder(n: Node, step: Key, c: Node, s: Key)
    requires Under(n, step, c) && s != []
    ensures Stops(n, step + s) <==> Stops(c, s)
  {
    hide GetNibs;
    assert (step + s)[..|step + s| - 1] == step + s[..|s| - 1];
  }

  lemma PartsUnder(n: Node, step: Key, c: Node, s: Key)
    requires Under(n, step, c)
    ensures Parts(n, step + s) <==> Parts(c, s)
  {
    hide GetNibs, PartAt, Under, Holds;
    if Parts(n, step + s) {
      var x: Key, y: Key :| Holds(n, x) && Holds(n, y) && PartAt(step + s, x, y);
      PartUnder(step, s, x, y);
      HoldsUnder(n, step, c, x);
      HoldsUnder(n, step, c, y);
    }
    if Parts(c, s) {
      var x: Key, y: Key :| Holds(c, x) && Holds(c, y) && PartAt(s, x, y);
      PartAbove(step, s, x, y);
      HoldsAbove(n, step, c, x);
      HoldsAbove(n, step, c, y);
    }
  }

  lemma HoldsUnder(n: Node, step: Key, c: Node, x: Key)
    requires Under(n, step, c) && step <= x && Holds(n, x)
    ensures Holds(c, x[|step|..])
  {
    hide GetNibs;
    assert x == step + x[|step|..];
  }

  lemma HoldsAbove(n: Node, step: Key, c: Node, x: Key)
    requires Under(n, step, c) && Holds(c, x)
    ensures Holds(n, step + x)
  {
  }

  lemma PartUnder(step: Key, s: Key, x: Key, y: Key)
    requires PartAt(step + s, x, y)
    ensures step <= x && step <= y && PartAt(s, x[|step|..], y[|step|..])
  {
  }

  lemma PartAbove(step: Key, s: Key, x: Key, y: Key)
    requires PartAt(s, x, y)
    ensures PartAt(step + s, step + x, step + y)
  {
  }

  lemma AccompaniedUnder(n: Node, step: Key, c: Node, s: Key)
    requires Under(n, step, c) && s != []
    ensures Accompanied(n, step + s) <==> Accompanied(c, s)
  {
    hide GetNibs, Beside, Under;
    if Accompanied(n, step + s) {
      var k: Key :| Holds(n, k) && Beside(k, step + s);
      var k' := CompanionUnder(n, step, c, s, k);
    }
    if Accompanied(c, s) {
      var k: Key :| Holds(c, k) && Beside(k, s);
      CompanionAbove(n, step, c, s, k);
    }
  }

  lemma CompanionUnder(n: Node, step: Key, c: Node, s: Key, k: Key) returns (k': Key)
    requires Under(n, step, c) && s != [] && Holds(n, k) && Beside(k, step + s)
    ensures Holds(c, k') && Beside(k', s)
  {
    hide GetNibs;
    k' := k[|step|..];
    BesideUnder(step, s, k, k');
    assert k == step + k';
  }

  lemma CompanionAbove(n: Node, step: Key, c: Node, s: Key, k: Key)
    requires Under(n, step, c) && s != [] && Holds(c, k) && Beside(k, s)
    ensures Holds(n, step + k) && Beside(step + k, step + s)
  {
    hide GetNibs;
    BesideUnder(step, s, step + k, k);
  }

  lemma BesideUnder(step: Key, s: Key, k: Key, k': Key)
    requires s != [] && |k| >= |step| && k' == k[|step|..]
    ensures Beside(k, step + s) <==> step <= k && Beside(k', s)
  {
    if Beside(k, step + s) {
      var n := |step| + |s| - 1;
      assert k[..n] == (step + s)[..n];
      assert k[..|step|] == k[..n][..|step|] == step;
      assert k'[..|s| - 1] == k[..n][|step|..] == s[..|s| - 1];
    }
    if step <= k && Beside(k', s) {
      var n := |step| + |s| - 1;
      assert k == step + k';
      assert k[..n] == step + k'[..|s| - 1];
      assert (step + s)[..n] == step + s[..|s| - 1];
    }
  }

  lemma ExtensionUnder(prefix: Path, c: Node)
    ensures Under(Extension(prefix, c), PrefixNibs(prefix), c)
  {
    hide PrefixNibs;
    var step := PrefixNibs(prefix);
    forall q: Key ensures GetNibs(Extension(prefix, c), step + q) == GetNibs(c, q) {
      assert (step + q)[|step|..] == q;
    }
  }

  lemma BranchUnder(cs: Slots<Node>, i: nibble)
    requires Occupied(cs, i)
    ensures Under(Branch(cs), [i], cs[i].value)
  {
    forall q: Key ensures GetNibs(Branch(cs), [i] + q) == GetNibs(cs[i].value, q) {
      assert ([i] + q)[1..] == q;
    }
  }

  lemma Below(p: Node, c: Node, t: Node, d: Node, step: Key, s: Key)
    requires Under(p, step, c) && Under(t, step, d) && s != []
    ensures Stops(p, step + s) <==> Stops(c, s)
    ensures Parts(t, step + s) <==> Parts(d, s)
    ensures Accompanied(t, step + s) <==> Accompanied(d, s)
  {
    StopsUnder(p, step, c, s);
    PartsUnder(t, step, d, s);
    AccompaniedUnder(t, step, d, s);
  }

  // ----- Where a node hangs -----

  lemma HangingIsHidden(H: Hasher, p: Node, t: Node, path: Key, gone: set<Key>)
    requires Hanging(H, p, t, path, gone)
    ensures var s := PrefixNibs(p.prefix); Stops(p, s) && !Parts(t, s) && !Accompanied(t, s)
  {
    hide PrefixNibs, RefOf, IsNormal, Cleared;
    var s := PrefixNibs(p.prefix);
    assert GetNibs(p, s).Err?;
    assert !(s <= s[..|s| - 1]);
    assert GetNibs(p, s[..|s| - 1]) == Ok(None);
  }

  lemma {:induction false} HangsWhere(H: Hasher, p: Node, t: Node, path: Key, gone: set<Key>) returns (s: Key)
    requires Loose(H, p, t, path, gone) && Hangs(p, t)
    ensures s != [] && Stops(p, s) && !Parts(t, s) && !Accompanied(t, s)
    decreases t
  {
    hide PrefixNibs, RefOf, Hanging, GetNibs, Stops, Parts, Accompanied, Under;
    s := [];
    if Hanging(H, p, t, path, gone) {
      HangingPath(H, p, t, path, gone);
      s := PrefixNibs(p.prefix);
      HangingIsHidden(H, p, t, path, gone);
    } else {
      match (p, t)
      case (Extension(a, c), Extension(_, d)) =>
        var step := PrefixNibs(a);
        var s' := HangsWhere(H, c, d, path + step, gone);
        ExtensionUnder(a, c);
        ExtensionUnder(a, d);
        Below(p, c, t, d, step, s');
        s := step + s';
      case (Branch(a), Branch(b)) =>
        var i: nibble :| Occupied(a, i) && Occupied(b, i) && Hangs(a[i].value, b[i].value);
        assert LooseSlot(H, a[i], b[i], path + [i], gone);
        var s' := HangsWhere(H, a[i].value, b[i].value, path + [i], gone);
        BranchUnder(a, i);
        BranchUnder(b, i);
        Below(p, a[i].value, t, b[i].value, [i], s');
        s := [i] + s';
      case _ =>
    }
  }

  lemma HangingPath(H: Hasher, p: Node, t: Node, path: Key, gone: set<Key>)
    requires Hanging(H, p, t, path, gone)
    ensures p.Extension? && PrefixNibs(p.prefix) != []
  {
  }

  lemma DigestStops(p: Node, s: Key)
    requires p.Digest? && Stops(p, s)
    ensures s == []
  {
  }

  /** Where a trie stands for the full one, a digest hides a branch or has a neighbour. */
  lemma {:induction false} SparseStops(H: Hasher, p: Node, t: Node, s: Key)
    requires Sparse(H, p, t) && Canon(t) && Full(t) && s != [] && Stops(p, s)
    ensures Parts(t, s) || Accompanied(t, s)
    decreases t
  {
    hide PrefixNibs, RefOf, Parts, Accompanied, Under, IsNormal;
    match (p, t) {
      case (Digest(_), _) => DigestStops(p, s);
      case (Extension(a, c), Extension(_, d)) =>
        var step := PrefixNibs(a);
        ExtensionUnder(a, c);
        ExtensionUnder(a, d);
        if s == step {
          assert s[|step|..] == [];
          ExtensionParts(t);
        } else {
          assert s == step + s[|step|..];
          Below(p, c, t, d, step, s[|step|..]);
          SparseStops(H, c, d, s[|step|..]);
        }
      case (Branch(a), Branch(b)) =>
        assert SparseSlot(H, a[s[0]], b[s[0]]);
        assert Occupied(a, s[0]) && Occupied(b, s[0]);
        if |s| == 1 {
          BranchAccompanied(b, s[0]);
          assert s == [s[0]];
        } else {
          BranchUnder(a, s[0]);
          BranchUnder(b, s[0]);
          assert s == [s[0]] + s[1..];
          Below(p, a[s[0]].value, t, b[s[0]].value, [s[0]], s[1..]);
          SparseStops(H, a[s[0]].value, b[s[0]].value, s[1..]);
        }
      case _ =>
    }
  }

  lemma ExtensionParts(t: Node)
    requires t.Extension? && Canon(t) && Full(t)
    ensures Parts(t, PrefixNibs(t.prefix))
  {
    hide PrefixNibs, IsNormal;
    var x, y := ExtensionKeys(t);
    MeetsHolds(t, x);
    MeetsHolds(t, y);
    var p := PrefixNibs(t.prefix);
    assert GetNibs(t, p) == GetNibs(t.child, p[|p|..]);
    assert PartAt(p, x, y);
  }

  lemma BranchAccompanied(cs: Slots<Node>, i: nibble)
    requires Canon(Branch(cs)) && Full(Branch(cs))
    ensures Accompanied(Branch(cs), [i])
  {
    var x, y := BranchKeys(cs);
    var k := if x[0] != i then x else y;
    assert Beside(k, [i]) by { assert k[..0] == [i][..0]; }
  }

  // ----- Said of the input -----

  lemma SameParts(t: Node, t': Node, s: Key)
    requires forall k: Key :: s <= k ==> GetNibs(t', k) == GetNibs(t, k)
    ensures Parts(t, s) <==> Parts(t', s)
  {
    hide GetNibs;
    if Parts(t, s) {
      var x: Key, y: Key :| Holds(t, x) && Holds(t, y) && PartAt(s, x, y);
      assert Holds(t', x) && Holds(t', y);
    }
    if Parts(t', s) {
      var x: Key, y: Key :| Holds(t', x) && Holds(t', y) && PartAt(s, x, y);
      assert Holds(t, x) && Holds(t, y);
    }
  }

  /** Over a run that stops at no digest: a node hangs at the end if and only if the witness has a digest that
      hides a leaf or an extension and that no key of the final trie accompanies. */
  lemma HangsExact(H: Hasher, p: Node, t: Node, ops: seq<Op>)
    requires Canon(t) && Full(t) && Sparse(H, p, t) && Known(p, ops)
    ensures Hangs(Run(p, ops), Run(t, ops)) <==> exists s :: Hidden(p, t, s) && !Accompanied(Run(t, ops), s)
  {
    hide Canon, Full, Sparse, Known, Run, Loose, Hangs, GetNibs, Parts, Accompanied;
    var p', t', gone := Run(p, ops), Run(t, ops), Removed(ops);
    SparseCanon(H, p, t);
    SparseIsLoose(H, p, t, [], gone);
    RunLoose(H, p, t, ops, gone);
    RunCanon(t, ops);
    if Hangs(p', t') {
      var s := HangsWhere(H, p', t', [], gone);
      SameStops(p, t, ops, s);
      assert Hidden(p, t, s);
    }
    if s :| Hidden(p, t, s) && !Accompanied(t', s) {
      SameStops(p, t, ops, s);
      LooseExact(H, p', t', [], gone);
      if Sparse(H, p', t') { SparseStops(H, p', t', s); }
    }
  }

  lemma SameStops(p: Node, t: Node, ops: seq<Op>, s: Key)
    requires Canon(p) && Canon(t) && Known(p, ops) && s != []
    ensures Stops(Run(p, ops), s) <==> Stops(p, s)
    ensures Stops(p, s) ==> (Parts(Run(t, ops), s) <==> Parts(t, s))
  {
    hide GetNibs, Canon, Known, Run, Parts;
    RunKeepsStops(p, t, ops, s);
    RunKeepsStops(p, t, ops, s[..|s| - 1]);
    NeverPanics(p, s[..|s| - 1]);
    NeverPanics(Run(p, ops), s[..|s| - 1]);
    if Stops(p, s) { SameParts(t, Run(t, ops), s); }
  }

  lemma {:induction false} NeverPanics(n: Node, k: Key)
    ensures !GetNibs(n, k).Panic?
  {
    hide PrefixNibs;
    match n
    case Branch(cs) => if k != [] && cs[k[0]].Some? { NeverPanics(cs[k[0]].value, k[1..]); }
    case Extension(prefix, child) =>
      if PrefixNibs(prefix) <= k { NeverPanics(child, k[|PrefixNibs(prefix)|..]); }
    case _ =>
  }
}
