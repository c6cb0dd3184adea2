/** Canonical tries: insertion and deletion keep the form, refine a finite map, and two canonical
    tries with the same map are the same trie. */
module TrieMap {
  import opened Bytes
  import opened HexPrefix
  import opened Mpt

  // ----- Canonical form -----

  predicate Occupied(cs: Slots<Node>, i: nibble)
  {
    cs[i].Some?
  }

  /** At least two slots are taken. */
  ghost predicate Forked(cs: Slots<Node>)
  {
    exists i: nibble, j: nibble :: i != j && Occupied(cs, i) && Occupied(cs, j)
  }

  /** Canonical, possibly sparse: branches have at least two children, extensions are non-empty and
      point to a branch (or to a digest, which may hide one), paths are normally encoded, and the
      empty node occurs only as the root. */
  ghost predicate Canon(n: Node)
  {
    match n
    case Null => true
    case Digest(_) => true
    case Leaf(prefix, _) => IsNormal(prefix, true)
    case Extension(prefix, child) =>
      && IsNormal(prefix, false) && PrefixNibs(prefix) != []
      && (child.Branch? || child.Digest?) && Canon(child)
    case Branch(cs) =>
      && Forked(cs)
      && forall i: nibble :: Occupied(cs, i) ==> !cs[i].value.Null? && Canon(cs[i].value)
  }

  /** No part of the trie is replaced by its hash. */
  ghost predicate Full(n: Node)
  {
    match n
    case Null => true
    case Leaf(_, _) => true
    case Digest(_) => false
    case Extension(_, child) => Full(child)
    case Branch(cs) => forall i: nibble :: Occupied(cs, i) ==> Full(cs[i].value)
  }

  lemma CanonLeafAt(k: Key, v: Value)
    ensures Canon(LeafAt(k, v)) && Full(LeafAt(k, v))
  {
    PathRoundTrip(k, true);
  }

  lemma CanonExtensionAt(k: Key, c: Node)
    requires k != [] && (c.Branch? || c.Digest?) && Canon(c)
    ensures Canon(ExtensionAt(k, c)) && (Full(c) ==> Full(ExtensionAt(k, c)))
  {
    PathRoundTrip(k, false);
  }

  lemma CanonFork(common: Key, i: nibble, a: Node, j: nibble, b: Node)
    requires i != j && Canon(a) && Canon(b) && !a.Null? && !b.Null?
    ensures Canon(Fork(common, i, a, j, b)) && !Fork(common, i, a, j, b).Null?
    ensures Full(a) && Full(b) ==> Full(Fork(common, i, a, j, b))
  {
    hide ToEncodedPath, PrefixNibs;
    var cs := EmptySlots()[i := Some(a)][j := Some(b)];
    assert Occupied(cs, i) && Occupied(cs, j);
    assert Canon(Branch(cs));
    if common != [] { CanonExtensionAt(common, Branch(cs)); }
  }

  lemma {:induction false} InsertCanon(n: Node, k: Key, v: Value)
    requires Canon(n) && InsertNibs(n, k, v).1.Ok?
    ensures var n' := InsertNibs(n, k, v).0;
            Canon(n') && !n'.Null? && (n.Branch? ==> n'.Branch?) && (Full(n) ==> Full(n'))
  {
    hide ToEncodedPath, PrefixNibs, Fork, Lcp;
    match n
    case Null => CanonLeafAt(k, v);
    case Branch(cs) =>
      var i := k[0];
      if cs[i].Some? {
        InsertCanon(cs[i].value, k[1..], v);
      } else {
        CanonLeafAt(k[1..], v);
      }
      var c := if cs[i].Some? then InsertNibs(cs[i].value, k[1..], v).0 else LeafAt(k[1..], v);
      assert Canon(c) && !c.Null?;
      BranchUpdate(cs, i, c);
    case Leaf(prefix, prior) =>
      var nibs := PrefixNibs(prefix);
      var l := Lcp(nibs, k);
      if l < |nibs| && l < |k| {
        CanonLeafAt(nibs[l + 1..], prior);
        CanonLeafAt(k[l + 1..], v);
        CanonFork(nibs[..l], nibs[l], LeafAt(nibs[l + 1..], prior), k[l], LeafAt(k[l + 1..], v));
      }
    case Extension(prefix, child) =>
      var nibs := PrefixNibs(prefix);
      var l := Lcp(nibs, k);
      if l == |nibs| {
        InsertCanon(child, k[l..], v);
      } else {
        var rest := if l + 1 < |nibs| then ExtensionAt(nibs[l + 1..], child) else child;
        if l + 1 < |nibs| { CanonExtensionAt(nibs[l + 1..], child); }
        CanonLeafAt(k[l + 1..], v);
        CanonFork(nibs[..l], nibs[l], rest, k[l], LeafAt(k[l + 1..], v));
      }
    case Digest(_) =>
  }

  /** Filling a slot of a canonical branch. */
  lemma BranchUpdate(cs: Slots<Node>, i: nibble, c: Node)
    requires Canon(Branch(cs)) && Canon(c) && !c.Null?
    ensures Canon(Branch(cs[i := Some(c)]))
    ensures Full(Branch(cs)) && Full(c) ==> Full(Branch(cs[i := Some(c)]))
  {
    var cs' := cs[i := Some(c)];
    var a: nibble, b: nibble :| a != b && Occupied(cs, a) && Occupied(cs, b);
    assert Occupied(cs', a) && Occupied(cs', b);
    assert forall j: nibble :: Occupied(cs', j) ==> j == i || Occupied(cs, j);
  }

  lemma CanonAdopt(index: nibble, orphan: Node)
    requires Canon(orphan) && !orphan.Null?
    ensures var n := Adopt(index, orphan).0;
            Canon(n) && (n.Leaf? || n.Extension?) && (Full(orphan) ==> Full(n))
  {
    match orphan
    case Leaf(prefix, value) => CanonLeafAt([index] + PrefixNibs(prefix), value);
    case Extension(prefix, child) => CanonExtensionAt([index] + PrefixNibs(prefix), child);
    case _ => CanonExtensionAt([index], orphan);
  }

  /** After a child of a canonical branch was changed or emptied, at least one child remains. */
  lemma CanonSlot(cs: Slots<Node>, i: nibble, c: Node, j: nibble)
    requires Canon(Branch(cs)) && Canon(c) && Occupied(cs[i := Slot(c)], j)
    ensures var d := cs[i := Slot(c)][j].value;
            Canon(d) && !d.Null? && (Full(Branch(cs)) && Full(c) ==> Full(d))
  {
    hide IsNormal, PrefixNibs;
    assert j != i ==> Occupied(cs, j);
  }

  lemma CanonBranch(cs: Slots<Node>)
    requires Forked(cs) && forall i: nibble :: Occupied(cs, i) ==> Canon(cs[i].value) && !cs[i].value.Null?
    ensures Canon(Branch(cs))
    ensures (forall i: nibble :: Occupied(cs, i) ==> Full(cs[i].value)) ==> Full(Branch(cs))
  {
  }

  lemma CanonCollapse(cs: Slots<Node>, i: nibble, c: Node)
    requires Canon(Branch(cs)) && Canon(c) && Occupied(cs, i)
    ensures var (n, r) := Collapse(cs[i := Slot(c)]);
            r == Ok(true) && Canon(n) && !n.Null? && (Full(Branch(cs)) && Full(c) ==> Full(n))
  {
    var cs' := cs[i := Slot(c)];
    var a: nibble, b: nibble :| a != b && Occupied(cs, a) && Occupied(cs, b);
    var other := if a == i then b else a;
    assert Occupied(cs', other);
    hide Adopt, FirstSome, Canon, Full;
    var index := FirstSome(cs', 0);
    assert index < 16 && Occupied(cs', index);
    if FirstSome(cs', index + 1) < 16 {
      assert Occupied(cs', FirstSome(cs', index + 1));
      assert Forked(cs');
      forall j: nibble | Occupied(cs', j)
        ensures Canon(cs'[j].value) && !cs'[j].value.Null? && (Full(Branch(cs)) && Full(c) ==> Full(cs'[j].value))
      {
        CanonSlot(cs, i, c, j);
      }
      CanonBranch(cs');
    } else {
      CanonSlot(cs, i, c, index);
      CanonAdopt(index, cs'[index].value);
    }
  }

  lemma CanonRejoin(prefix: Path, child: Node)
    requires PrefixNibs(prefix) != [] && IsNormal(prefix, false) && Canon(child)
    ensures Canon(Rejoin(prefix, child)) && (Full(child) ==> Full(Rejoin(prefix, child)))
  {
    hide ToEncodedPath, PrefixNibs, IsNormal, LeafAt, ExtensionAt;
    var nibs := PrefixNibs(prefix);
    match child
    case Leaf(p, value) => CanonLeafAt(nibs + PrefixNibs(p), value);
    case Extension(p, grandchild) => CanonExtensionAt(nibs + PrefixNibs(p), grandchild);
    case _ =>
  }

  /** On a canonical trie a deletion never panics and keeps the form. */
  lemma {:induction false} DeleteCanon(n: Node, k: Key)
    requires Canon(n)
    ensures var (n', r) := DeleteNibs(n, k);
            !r.Panic? && Canon(n') && (Full(n) ==> Full(n'))
  {
    hide PrefixNibs, IsNormal, Collapse, Rejoin;
    DeleteUnchanged(n, k);
    match n
    case Branch(cs) =>
      if k != [] && cs[k[0]].Some? {
        assert Occupied(cs, k[0]);
        DeleteCanon(cs[k[0]].value, k[1..]);
        CanonCollapse(cs, k[0], DeleteNibs(cs[k[0]].value, k[1..]).0);
      }
    case Extension(prefix, child) =>
      var nibs := PrefixNibs(prefix);
      if nibs <= k {
        DeleteCanon(child, k[|nibs|..]);
        CanonRejoin(prefix, DeleteNibs(child, k[|nibs|..]).0);
      }
    case _ =>
  }

  // ----- Uniqueness -----

  predicate Holds(n: Node, k: Key)
  {
    GetNibs(n, k).Ok? && GetNibs(n, k).value.Some?
  }

  /** The two tries answer every lookup alike. */
  ghost predicate SameMap(a: Node, b: Node)
  {
    forall k: Key :: GetNibs(a, k) == GetNibs(b, k)
  }

  lemma FullNeverErrs(n: Node, k: Key)
    requires Full(n)
    ensures GetNibs(n, k).Ok?
  {
    if n.Branch? && k != [] && n.children[k[0]].Some? { assert Occupied(n.children, k[0]); }
  }

  /** The lookup finds a value, or stops at a digest. */
  predicate Meets(n: Node, k: Key)
  {
    GetNibs(n, k) != Ok(None)
  }

  lemma MeetsHolds(n: Node, k: Key)
    requires Full(n)
    ensures Meets(n, k) <==> Holds(n, k)
  {
    FullNeverErrs(n, k);
  }

  /** In a non-empty canonical trie some lookup meets something. */
  ghost function SomeKey(n: Node): (k: Key)
    requires Canon(n) && !n.Null?
    ensures Meets(n, k)
  {
    match n
    case Leaf(prefix, _) => PrefixNibs(prefix)
    case Digest(_) => []
    case Extension(prefix, child) =>
      var k := PrefixNibs(prefix) + SomeKey(child);
      assert k[|PrefixNibs(prefix)|..] == SomeKey(child);
      k
    case Branch(cs) =>
      var i: nibble, j: nibble :| i != j && Occupied(cs, i) && Occupied(cs, j);
      KeyVia(cs, i)
  }

  /** A key that passes through slot `i` of the branch. */
  ghost function KeyVia(cs: Slots<Node>, i: nibble): (k: Key)
    requires Canon(Branch(cs)) && Occupied(cs, i)
    ensures Meets(Branch(cs), k) && k != [] && k[0] == i
    decreases cs, 0
  {
    var k := [i] + SomeKey(cs[i].value);
    assert k[1..] == SomeKey(cs[i].value);
    k
  }

  /** A non-empty canonical full trie holds some key. */
  lemma NonEmpty(n: Node)
    requires Canon(n) && Full(n) && !n.Null?
    ensures exists k: Key :: Holds(n, k)
  {
    MeetsHolds(n, SomeKey(n));
  }

  /** Two keys met by a branch that differ in their first nibble. */
  lemma BranchKeys(cs: Slots<Node>) returns (a: Key, b: Key)
    requires Canon(Branch(cs))
    ensures Meets(Branch(cs), a) && Meets(Branch(cs), b)
    ensures Full(Branch(cs)) ==> Holds(Branch(cs), a) && Holds(Branch(cs), b)
    ensures a != [] && b != [] && a[0] != b[0]
  {
    var i: nibble, j: nibble :| i != j && Occupied(cs, i) && Occupied(cs, j);
    a, b := KeyVia(cs, i), KeyVia(cs, j);
    if Full(Branch(cs)) {
      MeetsHolds(Branch(cs), a);
      MeetsHolds(Branch(cs), b);
    }
  }

  /** Two keys met by an extension that have no more in common than its path. */
  lemma ExtensionKeys(n: Node) returns (a: Key, b: Key)
    requires n.Extension? && Canon(n)
    ensures var p := PrefixNibs(n.prefix);
            && Meets(n, a) && Meets(n, b) && a != b && p <= a && p <= b
            && (a == p || (|p| < |a| && |p| < |b| && a[|p|] != b[|p|]))
  {
    hide PrefixNibs, IsNormal;
    var p := PrefixNibs(n.prefix);
    assert p != [];
    if n.child.Digest? {
      a, b := p, p + [0];
      assert GetNibs(n, a) == GetNibs(n.child, a[|p|..]) && GetNibs(n, b) == GetNibs(n.child, b[|p|..]);
    } else {
      var x, y := BranchKeys(n.child.children);
      a, b := p + x, p + y;
      assert a[|p|..] == x && b[|p|..] == y;
      assert GetNibs(n, a) == GetNibs(n.child, x) && GetNibs(n, b) == GetNibs(n.child, y);
    }
  }

  lemma NotLikeNull(n: Node)
    requires Canon(n) && !n.Null?
    ensures !SameMap(n, Null) && !SameMap(Null, n)
  {
    var k := SomeKey(n);
    assert GetNibs(n, k) != GetNibs(Null, k);
  }

  /** Two canonical tries, digests included, that answer every lookup alike are the same trie. */
  lemma {:induction false} Unique(a: Node, b: Node)
    requires Canon(a) && Canon(b) && SameMap(a, b)
    ensures a == b
    decreases a, 1
  {
    hide PrefixNibs, IsNormal;
    match (a, b) {
      case (Null, Null) =>
      case (Null, _) => NotLikeNull(b);
      case (_, Null) => NotLikeNull(a);
      case (Digest(_), _) => UniqueDigest(a, b);
      case (_, Digest(_)) => UniqueDigest(b, a);
      case (Leaf(p, _), Leaf(q, _)) => UniqueLeaves(a, b);
      case (Leaf(_, _), Branch(cs)) => var x, y := BranchKeys(cs); OneKey(a, x, y);
      case (Branch(cs), Leaf(_, _)) => var x, y := BranchKeys(cs); OneKey(b, x, y);
      case (Leaf(_, _), Extension(_, _)) => var x, y := ExtensionKeys(b); OneKey(a, x, y);
      case (Extension(_, _), Leaf(_, _)) => var x, y := ExtensionKeys(a); OneKey(b, x, y);
      case (Branch(cs), Extension(_, _)) => var x, y := BranchKeys(cs); OneFirst(b, x, y);
      case (Extension(_, _), Branch(cs)) => var x, y := BranchKeys(cs); OneFirst(a, x, y);
      case (Extension(_, _), Extension(_, _)) => UniqueExtensions(a, b);
      case (Branch(_), Branch(_)) => UniqueBranches(a, b);
    }
  }

  lemma UniqueDigest(a: Node, b: Node)
    requires a.Digest? && Canon(b) && forall k: Key :: GetNibs(a, k) == GetNibs(b, k)
    ensures a == b
  {
    hide PrefixNibs, IsNormal;
    assert GetNibs(a, []) == GetNibs(b, []);
  }

  lemma UniqueLeaves(a: Node, b: Node)
    requires a.Leaf? && b.Leaf? && Canon(a) && Canon(b) && SameMap(a, b)
    ensures a == b
  {
    assert GetNibs(a, PrefixNibs(a.prefix)) == GetNibs(b, PrefixNibs(a.prefix));
  }

  lemma OneKey(n: Node, x: Key, y: Key)
    requires n.Leaf? && x != y
    ensures !Meets(n, x) || !Meets(n, y)
  {
  }

  lemma OneFirst(n: Node, x: Key, y: Key)
    requires n.Extension? && PrefixNibs(n.prefix) != []
    requires x != [] && y != [] && x[0] != y[0]
    ensures !Meets(n, x) || !Meets(n, y)
  {
    hide PrefixNibs;
  }

  /** The path of an extension is no longer than the path of another with the same map. */
  lemma PathBound(a: Node, b: Node)
    requires a.Extension? && b.Extension? && Canon(a) && SameMap(a, b)
    ensures PrefixNibs(b.prefix) <= PrefixNibs(a.prefix)
  {
    hide PrefixNibs, IsNormal;
    var p, q := PrefixNibs(a.prefix), PrefixNibs(b.prefix);
    var x, y := ExtensionKeys(a);
    assert Meets(b, x) && Meets(b, y);
    assert q <= x && q <= y;
  }

  lemma {:induction false} UniqueExtensions(a: Node, b: Node)
    requires a.Extension? && b.Extension?
    requires Canon(a) && Canon(b) && SameMap(a, b)
    ensures a == b
    decreases a, 0
  {
    hide PrefixNibs;
    PathBound(a, b);
    PathBound(b, a);
    var p := PrefixNibs(a.prefix);
    assert p == PrefixNibs(b.prefix);
    forall k: Key ensures GetNibs(a.child, k) == GetNibs(b.child, k) {
      assert (p + k)[|p|..] == k;
      assert GetNibs(a, p + k) == GetNibs(b, p + k);
    }
    Unique(a.child, b.child);
  }

  lemma SlotMismatch(a: Node, b: Node, i: nibble)
    requires a.Branch? && b.Branch? && Canon(a)
    requires Occupied(a.children, i) && !Occupied(b.children, i)
    ensures !SameMap(a, b)
  {
    var k := KeyVia(a.children, i);
    assert GetNibs(a, k) != GetNibs(b, k);
  }

  lemma {:induction false} UniqueBranches(a: Node, b: Node)
    requires a.Branch? && b.Branch?
    requires Canon(a) && Canon(b) && SameMap(a, b)
    ensures a == b
    decreases a, 0
  {
    forall i: nibble ensures a.children[i] == b.children[i] {
      if Occupied(a.children, i) && Occupied(b.children, i) {
        forall k: Key ensures GetNibs(a.children[i].value, k) == GetNibs(b.children[i].value, k) {
          assert ([i] + k)[1..] == k;
          assert GetNibs(a, [i] + k) == GetNibs(b, [i] + k);
        }
        Unique(a.children[i].value, b.children[i].value);
      } else if Occupied(a.children, i) {
        SlotMismatch(a, b, i);
      } else if Occupied(b.children, i) {
        SlotMismatch(b, a, i);
      }
    }
  }
}
