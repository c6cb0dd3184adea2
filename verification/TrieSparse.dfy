/** Operations on a sparse trie simulate the same operations on the full trie it stands for. */
module TrieSparse {
  import opened Bytes
  import opened HexPrefix
  import opened Mpt
  import opened TrieMap
  import opened TrieHash

  /** What stands for a canonical trie is canonical. */
  lemma {:induction false} SparseCanon(H: Hasher, p: Node, t: Node)
    requires Sparse(H, p, t) && Canon(t)
    ensures Canon(p)
    decreases t
  {
    hide PrefixNibs, RefOf, IsNormal;
    match (p, t) {
      case (Extension(_, c), Extension(_, d)) => SparseCanon(H, c, d);
      case (Branch(a), Branch(b)) =>
        var i: nibble, j: nibble :| i != j && Occupied(b, i) && Occupied(b, j);
        assert SparseSlot(H, a[i], b[i]) && SparseSlot(H, a[j], b[j]);
        assert Occupied(a, i) && Occupied(a, j);
        forall s: nibble | Occupied(a, s) ensures !a[s].value.Null? && Canon(a[s].value) {
          assert SparseSlot(H, a[s], b[s]) && Occupied(b, s);
          SparseCanon(H, a[s].value, b[s].value);
        }
      case _ =>
    }
  }

  // ----- Lookup and insertion -----

  /** A lookup that succeeds on the sparse trie has the answer of the full trie. */
  lemma {:induction false} GetSimulates(H: Hasher, p: Node, t: Node, k: Key)
    requires Sparse(H, p, t) && GetNibs(p, k).Ok?
    ensures GetNibs(t, k) == GetNibs(p, k)
    decreases t
  {
    hide PrefixNibs, RefOf;
    match (p, t) {
      case (Extension(prefix, c), Extension(_, d)) =>
        if PrefixNibs(prefix) <= k { GetSimulates(H, c, d, k[|PrefixNibs(prefix)|..]); }
      case (Branch(a), Branch(b)) =>
        if k != [] {
          assert SparseSlot(H, a[k[0]], b[k[0]]);
          if a[k[0]].Some? { GetSimulates(H, a[k[0]].value, b[k[0]].value, k[1..]); }
        }
      case _ =>
    }
  }

  predicate Unresolved<T>(r: Result<T>)
  {
    r.Err? && r.error.NodeNotResolved?
  }

  lemma SparseFork(H: Hasher, common: Key, i: nibble, a: Node, a': Node, j: nibble, b: Node)
    requires Sparse(H, a, a')
    ensures Sparse(H, Fork(common, i, a, j, b), Fork(common, i, a', j, b))
  {
    hide RefOf, ToEncodedPath;
    SparseReflexive(H, b);
    var x := EmptySlots()[i := Some(a)][j := Some(b)];
    var y := EmptySlots()[i := Some(a')][j := Some(b)];
    assert forall s: nibble :: SparseSlot(H, x[s], y[s]);
    assert Sparse(H, Branch(x), Branch(y));
  }

  /** An insertion that meets no unresolved node does on the sparse trie what it does on the full
      one, with the same answer. */
  lemma {:induction false} InsertSimulates(H: Hasher, p: Node, t: Node, k: Key, v: Value)
    requires Sparse(H, p, t) && !Unresolved(InsertNibs(p, k, v).1)
    ensures var (p', r), (t', s) := InsertNibs(p, k, v), InsertNibs(t, k, v);
            r == s && Sparse(H, p', t')
    decreases t
  {
    hide PrefixNibs, ToEncodedPath, RefOf, Fork, Lcp;
    match (p, t) {
      case (Leaf(_, _), Leaf(_, _)) => SparseReflexive(H, InsertNibs(p, k, v).0);
      case (Extension(prefix, c), Extension(_, d)) =>
        var nibs := PrefixNibs(prefix);
        var l := Lcp(nibs, k);
        if l == |nibs| {
          InsertSimulates(H, c, d, k[l..], v);
        } else if l < |k| {
          var x := if l + 1 < |nibs| then ExtensionAt(nibs[l + 1..], c) else c;
          var y := if l + 1 < |nibs| then ExtensionAt(nibs[l + 1..], d) else d;
          SparseFork(H, nibs[..l], nibs[l], x, y, k[l], LeafAt(k[l + 1..], v));
        }
      case (Branch(a), Branch(b)) =>
        if k != [] {
          var i := k[0];
          assert SparseSlot(H, a[i], b[i]);
          if a[i].Some? {
            InsertSimulates(H, a[i].value, b[i].value, k[1..], v);
            SparseBranchUpdate(H, a, b, i, Some(InsertNibs(a[i].value, k[1..], v).0),
                               Some(InsertNibs(b[i].value, k[1..], v).0));
          } else {
            SparseReflexive(H, LeafAt(k[1..], v));
            SparseBranchUpdate(H, a, b, i, Some(LeafAt(k[1..], v)), Some(LeafAt(k[1..], v)));
          }
        }
      case _ =>
    }
  }

  lemma SparseBranchUpdate(H: Hasher, a: Slots<Node>, b: Slots<Node>, i: nibble,
                           c: Option<Node>, d: Option<Node>)
    requires Sparse(H, Branch(a), Branch(b)) && SparseSlot(H, c, d)
    ensures Sparse(H, Branch(a[i := c]), Branch(b[i := d]))
  {
    hide RefOf;
    var x: Slots<Node>, y: Slots<Node> := a[i := c], b[i := d];
    forall s: nibble ensures SparseSlot(H, x[s], y[s]) {
      assert SparseSlot(H, a[s], b[s]);
    }
  }

  // ----- Deletion -----

  /** The only occupied slot besides `i`, or 16 if there is none or more than one. */
  function LoneSibling(cs: Slots<Node>, i: nibble): (j: nat)
    ensures j <= 16 && (j < 16 ==> j != i && cs[j].Some?)
  {
    var rest := cs[i := None];
    var j := FirstSome(rest, 0);
    if j < 16 && FirstSome(rest, j + 1) == 16 then j else 16
  }

  /** The deletion removes a leaf whose only sibling is an unresolved node that hides a leaf or an
      extension, so that the branch cannot be merged with it. */
  ghost predicate Blind(p: Node, t: Node, k: Key)
    decreases p
  {
    match (p, t)
    case (Extension(prefix, c), Extension(_, d)) =>
      PrefixNibs(prefix) <= k && Blind(c, d, k[|PrefixNibs(prefix)|..])
    case (Branch(a), Branch(b)) =>
      && k != [] && a[k[0]].Some? && b[k[0]].Some?
      && (|| Blind(a[k[0]].value, b[k[0]].value, k[1..])
          || (&& IsLeafFor(a[k[0]].value, k[1..])
              && var j := LoneSibling(a, k[0]);
                 j < 16 && b[j].Some? && Hides(a[j].value, b[j].value)))
    case _ => false
  }

  predicate IsLeafFor(n: Node, k: Key)
  {
    n.Leaf? && PrefixNibs(n.prefix) == k
  }

  predicate Hides(p: Node, t: Node)
  {
    p.Digest? && (t.Leaf? || t.Extension?)
  }

  lemma CollapseForked(cs: Slots<Node>)
    requires Forked(cs)
    ensures Collapse(cs) == (Branch(cs), Ok(true))
  {
    var i: nibble, j: nibble :| i != j && Occupied(cs, i) && Occupied(cs, j);
    var lo, hi := if i < j then i else j, if i < j then j else i;
    assert FirstSome(cs, 0) <= lo;
    assert FirstSome(cs, FirstSome(cs, 0) + 1) <= hi;
  }

  /** Only a leaf is deleted as a whole. */
  lemma DeleteEmpties(n: Node, k: Key)
    requires Canon(n) && !n.Null?
    ensures DeleteNibs(n, k).0.Null? <==> IsLeafFor(n, k)
    ensures IsLeafFor(n, k) ==> DeleteNibs(n, k).1 == Ok(true)
    ensures !DeleteNibs(n, k).0.Digest? || n.Digest?
  {
    hide PrefixNibs, IsNormal, ToEncodedPath, Collapse;
    match n
    case Branch(cs) =>
      if k != [] && cs[k[0]].Some? {
        assert Occupied(cs, k[0]);
        var c := DeleteNibs(cs[k[0]].value, k[1..]).0;
        DeleteCanon(cs[k[0]].value, k[1..]);
        CanonCollapse(cs, k[0], c);
        CollapseShape(cs[k[0] := Slot(c)]);
      }
    case Extension(prefix, child) =>
      var nibs := PrefixNibs(prefix);
      if nibs <= k { DeleteEmpties(child, k[|nibs|..]); }
    case _ =>
  }

  lemma CollapseShape(cs: Slots<Node>)
    ensures !Collapse(cs).0.Digest?
  {
  }

  lemma SameFirstSome(H: Hasher, a: Slots<Node>, b: Slots<Node>, from: nat)
    requires from <= 16 && Sparse(H, Branch(a), Branch(b))
    ensures FirstSome(a, from) == FirstSome(b, from)
    decreases 16 - from
  {
    hide RefOf;
    if from < 16 {
      assert SparseSlot(H, a[from], b[from]);
      SameFirstSome(H, a, b, from + 1);
    }
  }

  lemma AdoptSimulates(H: Hasher, j: nibble, o: Node, o': Node)
    requires Sparse(H, o, o') && Canon(o) && Canon(o') && !o.Null? && !o'.Null?
    ensures Sparse(H, Adopt(j, o).0, Adopt(j, o').0) <==> !Hides(o, o')
  {
    hide PrefixNibs, ToEncodedPath, RefOf, IsNormal;
    if o'.Leaf? || o'.Extension? {
      PathRoundTrip([j], false);
      PathRoundTrip([j] + PrefixNibs(o'.prefix), false);
    }
  }

  lemma RejoinSimulates(H: Hasher, prefix: Path, c: Node, d: Node)
    requires Canon(c) && Canon(d) && !c.Null? && !c.Digest? && !d.Null? && !d.Digest?
    requires IsNormal(prefix, false)
    ensures Sparse(H, Rejoin(prefix, c), Rejoin(prefix, d)) <==> Sparse(H, c, d)
  {
    hide PrefixNibs, ToEncodedPath, RefOf, IsNormal;
    RejoinPath(prefix, c);
    RejoinPath(prefix, d);
    NormalPath(c);
    NormalPath(d);
    var nibs := PrefixNibs(prefix);
    if !c.Branch? { assert (nibs + PrefixNibs(c.prefix))[|nibs|..] == PrefixNibs(c.prefix); }
    if !d.Branch? { assert (nibs + PrefixNibs(d.prefix))[|nibs|..] == PrefixNibs(d.prefix); }
  }

  /** The path of a leaf or of an extension, by its nibbles. */
  lemma NormalPath(n: Node)
    requires Canon(n)
    ensures n.Leaf? ==> n.prefix == ToEncodedPath(PrefixNibs(n.prefix), true)
    ensures n.Extension? ==> n.prefix == ToEncodedPath(PrefixNibs(n.prefix), false) && PrefixNibs(n.prefix) != []
  {
  }

  lemma RejoinPath(prefix: Path, c: Node)
    requires !c.Null? && !c.Digest? && IsNormal(prefix, false)
    ensures var n := Rejoin(prefix, c);
            && (c.Leaf? ==> n.Leaf?) && (!c.Leaf? ==> n.Extension?)
            && PrefixNibs(n.prefix) == PrefixNibs(prefix) + (if c.Branch? then [] else PrefixNibs(c.prefix))
  {
    hide PrefixNibs, ToEncodedPath, IsNormal;
    if !c.Branch? {
      PathRoundTrip(PrefixNibs(prefix) + PrefixNibs(c.prefix), true);
      PathRoundTrip(PrefixNibs(prefix) + PrefixNibs(c.prefix), false);
    } else {
      assert PrefixNibs(prefix) + [] == PrefixNibs(prefix);
    }
  }

  /** A deletion that meets no unresolved node has the answer of the same deletion on the full trie;
      its result stands for the result on the full trie exactly when it was not blind. */
  lemma {:induction false} DeleteSimulates(H: Hasher, p: Node, t: Node, k: Key)
    requires Canon(t) && Sparse(H, p, t) && !Unresolved(DeleteNibs(p, k).1)
    ensures DeleteNibs(p, k).1 == DeleteNibs(t, k).1
    ensures Sparse(H, DeleteNibs(p, k).0, DeleteNibs(t, k).0) <==> !Blind(p, t, k)
    decreases t, 1
  {
    SparseCanon(H, p, t);
    hide PrefixNibs, RefOf, IsNormal, Collapse, Rejoin;
    match (p, t) {
      case (Extension(prefix, c), Extension(_, d)) =>
        if PrefixNibs(prefix) <= k { DeleteExtensionSimulates(H, prefix, c, d, k); }
      case (Branch(a), Branch(b)) =>
        if k != [] {
          assert SparseSlot(H, a[k[0]], b[k[0]]);
          if a[k[0]].Some? { DeleteBranchSimulates(H, a, b, k); }
        }
      case _ =>
    }
  }

  lemma {:induction false} DeleteExtensionSimulates(H: Hasher, prefix: Path, c: Node, d: Node, k: Key)
    requires Canon(Extension(prefix, c)) && Canon(Extension(prefix, d)) && Sparse(H, c, d)
    requires PrefixNibs(prefix) <= k && !Unresolved(DeleteNibs(Extension(prefix, c), k).1)
    ensures DeleteNibs(Extension(prefix, c), k).1 == DeleteNibs(Extension(prefix, d), k).1
    ensures Sparse(H, DeleteNibs(Extension(prefix, c), k).0, DeleteNibs(Extension(prefix, d), k).0)
       <==> !Blind(c, d, k[|PrefixNibs(prefix)|..])
    decreases d, 2
  {
    hide PrefixNibs, RefOf, IsNormal, Collapse, Rejoin, Blind;
    var tail := k[|PrefixNibs(prefix)|..];
    DeleteSimulates(H, c, d, tail);
    DeleteEmpties(c, tail);
    DeleteEmpties(d, tail);
    DeleteCanon(c, tail);
    DeleteCanon(d, tail);
    if DeleteNibs(c, tail).1 == Ok(true) {
      RejoinSimulates(H, prefix, DeleteNibs(c, tail).0, DeleteNibs(d, tail).0);
    }
  }

  lemma {:induction false} DeleteBranchSimulates(H: Hasher, a: Slots<Node>, b: Slots<Node>, k: Key)
    requires Canon(Branch(a)) && Canon(Branch(b)) && Sparse(H, Branch(a), Branch(b))
    requires !Unresolved(DeleteNibs(Branch(a), k).1)
    requires k != [] && a[k[0]].Some? && b[k[0]].Some?
    ensures DeleteNibs(Branch(a), k).1 == DeleteNibs(Branch(b), k).1
    ensures Sparse(H, DeleteNibs(Branch(a), k).0, DeleteNibs(Branch(b), k).0)
       <==> !Blind(Branch(a), Branch(b), k)
    decreases b, 0
  {
    hide PrefixNibs, RefOf, IsNormal, Collapse, Canon, Sparse;
    var i, tail := k[0], k[1..];
    assert Occupied(a, i) && Occupied(b, i);
    var c, d := a[i].value, b[i].value;
    SlotFacts(H, a, b, i);
    DeleteSimulates(H, c, d, tail);
    DeleteUnchanged(Branch(a), k);
    DeleteUnchanged(Branch(b), k);
    DeleteUnchanged(c, tail);
    DeleteUnchanged(d, tail);
    DeleteEmpties(c, tail);
    DeleteEmpties(d, tail);
    DeleteCanon(c, tail);
    if DeleteNibs(c, tail).1 == Ok(true) {
      if IsLeafFor(c, tail) {
        SiblingSimulates(H, a, b, i);
      } else {
        SurvivorSimulates(H, a, b, i, DeleteNibs(c, tail).0, DeleteNibs(d, tail).0);
      }
    }
  }

  lemma SlotFacts(H: Hasher, a: Slots<Node>, b: Slots<Node>, i: nibble)
    requires Canon(Branch(a)) && Canon(Branch(b)) && Sparse(H, Branch(a), Branch(b))
    requires a[i].Some? && b[i].Some?
    ensures Sparse(H, a[i].value, b[i].value) && Canon(a[i].value) && Canon(b[i].value)
    ensures !a[i].value.Null? && !b[i].value.Null?
    ensures a[i].value.Leaf? ==> a[i].value == b[i].value
    ensures b[i].value.Leaf? ==> a[i].value.Digest? || a[i].value == b[i].value
  {
    hide PrefixNibs, RefOf, IsNormal;
    assert SparseSlot(H, a[i], b[i]);
    assert Occupied(a, i) && Occupied(b, i);
  }

  /** The child is gone: the branch stays or its lone sibling moves up. */
  lemma SiblingSimulates(H: Hasher, a: Slots<Node>, b: Slots<Node>, i: nibble)
    requires Canon(Branch(a)) && Canon(Branch(b)) && Sparse(H, Branch(a), Branch(b))
    requires a[i].Some? && b[i].Some?
    ensures var j := LoneSibling(a, i);
            && (j < 16 ==> b[j].Some?)
            && Collapse(a[i := None]).1 == Collapse(b[i := None]).1
            && (Sparse(H, Collapse(a[i := None]).0, Collapse(b[i := None]).0)
                <==> !(j < 16 && Hides(a[j].value, b[j].value)))
  {
    hide PrefixNibs, RefOf, IsNormal, Canon, Adopt, Sparse, Hides, FirstSome;
    CanonCollapse(a, i, Null) by { assert Occupied(a, i) && Canon(Null) by { CanonNull(); } }
    CanonCollapse(b, i, Null) by { assert Occupied(b, i) && Canon(Null) by { CanonNull(); } }
    var x: Slots<Node>, y: Slots<Node> := a[i := None], b[i := None];
    SparseBranchUpdate(H, a, b, i, None, None);
    var j := FirstSome(x, 0);
    SameFirstSome(H, x, y, 0);
    if j < 16 {
      SameFirstSome(H, x, y, j + 1);
      if FirstSome(x, j + 1) == 16 {
        SlotFacts(H, a, b, j);
        AdoptSimulates(H, j, a[j].value, b[j].value);
      }
    }
  }

  lemma CanonNull()
    ensures Canon(Null)
  {
  }

  /** The child changed but is still there: the branch stays. */
  lemma SurvivorSimulates(H: Hasher, a: Slots<Node>, b: Slots<Node>, i: nibble, c: Node, d: Node)
    requires Canon(Branch(a)) && Canon(Branch(b)) && Sparse(H, Branch(a), Branch(b))
    requires a[i].Some? && b[i].Some? && !c.Null? && !d.Null?
    ensures Collapse(a[i := Some(c)]).1 == Collapse(b[i := Some(d)]).1
    ensures Sparse(H, Collapse(a[i := Some(c)]).0, Collapse(b[i := Some(d)]).0) <==> Sparse(H, c, d)
  {
    hide RefOf, Collapse;
    var x: Slots<Node>, y: Slots<Node> := a[i := Some(c)], b[i := Some(d)];
    ForkedUpdate(a, i, c);
    ForkedUpdate(b, i, d);
    CollapseForked(x);
    CollapseForked(y);
    if Sparse(H, c, d) {
      SparseBranchUpdate(H, a, b, i, Some(c), Some(d));
    } else {
      assert !SparseSlot(H, x[i], y[i]);
    }
  }

  lemma ForkedUpdate(cs: Slots<Node>, i: nibble, c: Node)
    requires Forked(cs)
    ensures Forked(cs[i := Some(c)])
  {
    var a: nibble, b: nibble :| a != b && Occupied(cs, a) && Occupied(cs, b);
    assert Occupied(cs[i := Some(c)], a) && Occupied(cs[i := Some(c)], b);
  }
}
