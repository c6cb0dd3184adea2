/** What a trie with digests becomes under operations of any kind. A deletion may collapse a branch onto a
    digest that hides a leaf or an extension; the trie then holds an extension onto that digest where the full
    trie holds the merged node. Such a node hangs: it is not what the full trie has there, but every answer the
    trie still gives is right, and a later operation may put it right again. */
module TrieLoose {
  import opened Bytes
  import opened HexPrefix
  import opened Mpt
  import opened TrieMap
  import opened TrieHash
  import opened TrieSparse

  /** The node with the first `i` nibbles of its path dropped. */
  function Shortened(n: Node, i: nat): Node
    requires n.Leaf? || n.Extension?
    requires i <= |PrefixNibs(n.prefix)|
  {
    At(n, PrefixNibs(n.prefix)[i..])
  }

  /** The leaf or extension with another path. */
  function At(n: Node, path: Key): Node
    requires n.Leaf? || n.Extension?
  {
    if n.Leaf? then LeafAt(path, n.value) else ExtensionAt(path, n.child)
  }

  /** `k` goes along with `s` up to the last nibble of `s` and parts from it there. */
  predicate Beside(k: Key, s: Key)
  {
    0 < |s| <= |k| && k[..|s| - 1] == s[..|s| - 1] && k[|s| - 1] != s[|s| - 1]
  }

  /** One of the keys in `gone` was beside this path. */
  ghost predicate Cleared(s: Key, gone: set<Key>)
  {
    exists k :: k in gone && Beside(k, s)
  }

  /** `p`, at this path from the root, is an extension onto the digest of a leaf or extension, with which `t`
      has been merged after a key in `gone` was deleted. */
  ghost predicate Hanging(H: Hasher, p: Node, t: Node, path: Key, gone: set<Key>)
  {
    && p.Extension? && p.child.Digest? && IsNormal(p.prefix, false) && (t.Leaf? || t.Extension?)
    && var nibs, all := PrefixNibs(p.prefix), PrefixNibs(t.prefix);
       && nibs != [] && nibs <= all && (t.Extension? ==> nibs != all)
       && RefOf(H, Shortened(t, |nibs|)) == DigestRef(p.child.digest)
       && Cleared(path + nibs, gone)
  }

  /** `p` stands for `t`, except that some of its nodes may hang. */
  ghost predicate Loose(H: Hasher, p: Node, t: Node, path: Key, gone: set<Key>)
    decreases t
  {
    || (p.Digest? && RefOf(H, t) == DigestRef(p.digest))
    || Hanging(H, p, t, path, gone)
    || match (p, t)
       case (Null, Null) => true
       case (Leaf(_, _), Leaf(_, _)) => p == t
       case (Extension(a, c), Extension(b, d)) => a == b && Loose(H, c, d, path + PrefixNibs(a), gone)
       case (Branch(a), Branch(b)) => forall i: nibble :: LooseSlot(H, a[i], b[i], path + [i], gone)
       case _ => false
  }

  ghost predicate LooseSlot(H: Hasher, a: Option<Node>, b: Option<Node>, path: Key, gone: set<Key>)
    decreases b
  {
    a.Some? == b.Some? && (a.Some? ==> Loose(H, a.value, b.value, path, gone))
  }

  lemma {:induction false} SparseIsLoose(H: Hasher, p: Node, t: Node, path: Key, gone: set<Key>)
    requires Sparse(H, p, t)
    ensures Loose(H, p, t, path, gone)
    decreases t
  {
    hide RefOf, PrefixNibs, Hanging;
    match (p, t) {
      case (Extension(a, c), Extension(_, d)) => if !p.Digest? { SparseIsLoose(H, c, d, path + PrefixNibs(a), gone); }
      case (Branch(a), Branch(b)) =>
        forall i: nibble ensures LooseSlot(H, a[i], b[i], path + [i], gone) {
          assert SparseSlot(H, a[i], b[i]);
          if a[i].Some? { SparseIsLoose(H, a[i].value, b[i].value, path + [i], gone); }
        }
      case _ =>
    }
  }

  lemma LooseReflexive(H: Hasher, t: Node, path: Key, gone: set<Key>)
    ensures Loose(H, t, t, path, gone)
  {
    SparseReflexive(H, t);
    SparseIsLoose(H, t, t, path, gone);
  }

  /** Some node hangs. */
  ghost predicate Hangs(p: Node, t: Node)
    decreases p
  {
    match (p, t)
    case (Extension(_, _), Leaf(_, _)) => true
    case (Extension(a, c), Extension(b, d)) => a != b || Hangs(c, d)
    case (Branch(a), Branch(b)) =>
      exists i: nibble :: Occupied(a, i) && Occupied(b, i) && Hangs(a[i].value, b[i].value)
    case _ => false
  }

  /** A loose form stands for the trie exactly when no node of it hangs. */
  lemma {:induction false} LooseExact(H: Hasher, p: Node, t: Node, path: Key, gone: set<Key>)
    requires Loose(H, p, t, path, gone)
    ensures Sparse(H, p, t) <==> !Hangs(p, t)
    decreases t
  {
    hide RefOf, PrefixNibs, IsNormal;
    match (p, t) {
      case (Extension(a, c), Extension(b, d)) =>
        if Hanging(H, p, t, path, gone) {
          assert a != b;
        } else {
          LooseExact(H, c, d, path + PrefixNibs(a), gone);
        }
      case (Branch(a), Branch(b)) =>
        forall i: nibble ensures SparseSlot(H, a[i], b[i])
          <==> !(Occupied(a, i) && Occupied(b, i) && Hangs(a[i].value, b[i].value))
        {
          assert LooseSlot(H, a[i], b[i], path + [i], gone);
          if a[i].Some? { LooseExact(H, a[i].value, b[i].value, path + [i], gone); }
        }
      case _ =>
    }
  }

  /** A loose form of a canonical trie is canonical. */
  lemma {:induction false} LooseCanon(H: Hasher, p: Node, t: Node, path: Key, gone: set<Key>)
    requires Loose(H, p, t, path, gone) && Canon(t)
    ensures Canon(p)
    decreases t
  {
    hide RefOf, PrefixNibs, IsNormal;
    match (p, t) {
      case (Extension(a, c), Extension(_, d)) =>
        if !Hanging(H, p, t, path, gone) { LooseCanon(H, c, d, path + PrefixNibs(a), gone); }
      case (Branch(a), Branch(b)) =>
        var i: nibble, j: nibble :| i != j && Occupied(b, i) && Occupied(b, j);
        assert LooseSlot(H, a[i], b[i], path + [i], gone) && LooseSlot(H, a[j], b[j], path + [j], gone);
        assert Occupied(a, i) && Occupied(a, j);
        forall s: nibble | Occupied(a, s) ensures !a[s].value.Null? && Canon(a[s].value) {
          assert LooseSlot(H, a[s], b[s], path + [s], gone) && Occupied(b, s);
          LooseCanon(H, a[s].value, b[s].value, path + [s], gone);
        }
      case _ =>
    }
  }

  // ----- Lookup -----

  /** Every lookup that succeeds has the full trie's answer. */
  lemma {:induction false} GetLoose(H: Hasher, p: Node, t: Node, k: Key, path: Key, gone: set<Key>)
    requires Loose(H, p, t, path, gone) && GetNibs(p, k).Ok?
    ensures GetNibs(t, k) == GetNibs(p, k)
    decreases t
  {
    hide PrefixNibs, RefOf, IsNormal;
    match (p, t) {
      case (Extension(a, c), Extension(_, d)) =>
        if !Hanging(H, p, t, path, gone) && PrefixNibs(a) <= k {
          GetLoose(H, c, d, k[|PrefixNibs(a)|..], path + PrefixNibs(a), gone);
        }
      case (Branch(a), Branch(b)) =>
        if k != [] {
          assert LooseSlot(H, a[k[0]], b[k[0]], path + [k[0]], gone);
          if a[k[0]].Some? { GetLoose(H, a[k[0]].value, b[k[0]].value, k[1..], path + [k[0]], gone); }
        }
      case _ =>
    }
  }

  // ----- Insertion -----

  lemma MakeHanging(H: Hasher, nibs: Key, d: Bytes32, t: Node, r: Key, path: Key, gone: set<Key>)
    requires (t.Leaf? || t.Extension?) && nibs != [] && (t.Extension? ==> r != [])
    requires RefOf(H, At(t, r)) == DigestRef(d) && Cleared(path + nibs, gone)
    ensures Hanging(H, ExtensionAt(nibs, Digest(d)), At(t, nibs + r), path, gone)
  {
    hide RefOf, ToEncodedPath, PrefixNibs, Cleared;
    PathRoundTrip(nibs, false);
    PathRoundTrip(nibs + r, t.Leaf?);
    assert (nibs + r)[|nibs|..] == r;
    assert |nibs + r| == |nibs| + |r|;
  }

  lemma LcpLonger(a: Key, b: Key, k: Key)
    requires a <= b && Lcp(a, k) < |a|
    ensures Lcp(b, k) == Lcp(a, k)
  {
    hide Lcp;
    var l, m := Lcp(a, k), Lcp(b, k);
    assert forall i :: 0 <= i < m ==> b[..m][i] == k[..m][i];
    assert forall i :: 0 <= i < l ==> a[..l][i] == k[..l][i];
  }

  lemma LooseFork(H: Hasher, common: Key, i: nibble, a: Node, a': Node, j: nibble, b: Node, path: Key, gone: set<Key>)
    requires Loose(H, a, a', path + common + [i], gone)
    ensures Loose(H, Fork(common, i, a, j, b), Fork(common, i, a', j, b), path, gone)
  {
    hide RefOf, ToEncodedPath, PrefixNibs, Hanging;
    var x, y := EmptySlots()[i := Some(a)][j := Some(b)], EmptySlots()[i := Some(a')][j := Some(b)];
    LooseReflexive(H, b, path + common + [j], gone);
    assert forall s: nibble :: LooseSlot(H, x[s], y[s], path + common + [s], gone);
    assert Loose(H, Branch(x), Branch(y), path + common, gone);
    PathRoundTrip(common, false);
    assert path + [] == path;
  }

  lemma InsertHanging(H: Hasher, p: Node, t: Node, k: Key, v: Value, path: Key, gone: set<Key>)
    requires Hanging(H, p, t, path, gone) && !Unresolved(InsertNibs(p, k, v).1)
    ensures InsertNibs(p, k, v).1 == InsertNibs(t, k, v).1
    ensures Loose(H, InsertNibs(p, k, v).0, InsertNibs(t, k, v).0, path, gone)
  {
    hide RefOf, ToEncodedPath, PrefixNibs, IsNormal, Cleared, Lcp, Fork;
    var nibs, all, d := PrefixNibs(p.prefix), PrefixNibs(t.prefix), p.child.digest;
    var l := Lcp(nibs, k);
    assert l < |nibs|;
    LcpLonger(nibs, all, k);
    if l < |k| {
      var before, r := nibs[..l], all[|nibs|..];
      assert all[..l] == before && all[l] == nibs[l];
      assert nibs == before + [nibs[l]] + nibs[l + 1..];
      var here := path + before + [nibs[l]];
      var rest := if l + 1 < |nibs| then ExtensionAt(nibs[l + 1..], Digest(d)) else Digest(d);
      assert Loose(H, rest, At(t, all[l + 1..]), here, gone) by {
        if l + 1 < |nibs| {
          assert here + nibs[l + 1..] == path + nibs && nibs[l + 1..] + r == all[l + 1..];
          MakeHanging(H, nibs[l + 1..], d, t, r, here, gone);
        }
      }
      LooseFork(H, before, nibs[l], rest, At(t, all[l + 1..]), k[l], LeafAt(k[l + 1..], v), path, gone);
    }
  }

  lemma LooseBranchUpdate(H: Hasher, a: Slots<Node>, b: Slots<Node>, i: nibble, c: Option<Node>, d: Option<Node>,
                          path: Key, gone: set<Key>)
    requires Loose(H, Branch(a), Branch(b), path, gone) && LooseSlot(H, c, d, path + [i], gone)
    ensures Loose(H, Branch(a[i := c]), Branch(b[i := d]), path, gone)
  {
    hide RefOf, Hanging;
    var x: Slots<Node>, y: Slots<Node> := a[i := c], b[i := d];
    assert !Hanging(H, Branch(a), Branch(b), path, gone) by { BranchHangsNot(H, a, b, path, gone); }
    forall s: nibble ensures LooseSlot(H, x[s], y[s], path + [s], gone) {
      assert LooseSlot(H, a[s], b[s], path + [s], gone);
    }
  }

  lemma BranchHangsNot(H: Hasher, a: Slots<Node>, b: Slots<Node>, path: Key, gone: set<Key>)
    ensures !Hanging(H, Branch(a), Branch(b), path, gone)
  {
  }

  /** An insertion that meets no digest has the full trie's answer and leaves a loose form of the full trie
      after it. */
  lemma {:induction false} InsertLoose(H: Hasher, p: Node, t: Node, k: Key, v: Value, path: Key, gone: set<Key>)
    requires Loose(H, p, t, path, gone) && !Unresolved(InsertNibs(p, k, v).1)
    ensures InsertNibs(p, k, v).1 == InsertNibs(t, k, v).1
    ensures Loose(H, InsertNibs(p, k, v).0, InsertNibs(t, k, v).0, path, gone)
    decreases t, 0
  {
    if Hanging(H, p, t, path, gone) {
      InsertHanging(H, p, t, k, v, path, gone);
    } else {
      hide PrefixNibs, ToEncodedPath, RefOf, Fork, Lcp, Hanging;
      match (p, t) {
        case (Extension(a, c), Extension(_, d)) => InsertExtensionLoose(H, a, c, d, k, v, path, gone);
        case (Branch(a), Branch(b)) =>
          if k != [] {
            var i := k[0];
            assert LooseSlot(H, a[i], b[i], path + [i], gone);
            if a[i].Some? {
              InsertLoose(H, a[i].value, b[i].value, k[1..], v, path + [i], gone);
              LooseBranchUpdate(H, a, b, i, Some(InsertNibs(a[i].value, k[1..], v).0),
                                Some(InsertNibs(b[i].value, k[1..], v).0), path, gone);
            } else {
              LooseReflexive(H, LeafAt(k[1..], v), path + [i], gone);
              LooseBranchUpdate(H, a, b, i, Some(LeafAt(k[1..], v)), Some(LeafAt(k[1..], v)), path, gone);
            }
          }
        case (Leaf(_, _), Leaf(_, _)) => LooseReflexive(H, InsertNibs(p, k, v).0, path, gone);
        case (Null, Null) => LooseReflexive(H, InsertNibs(p, k, v).0, path, gone);
        case _ =>
      }
    }
  }

  lemma {:induction false} InsertExtensionLoose(H: Hasher, a: Path, c: Node, d: Node, k: Key, v: Value, path: Key,
                                               gone: set<Key>)
    requires Loose(H, c, d, path + PrefixNibs(a), gone) && !Unresolved(InsertNibs(Extension(a, c), k, v).1)
    ensures InsertNibs(Extension(a, c), k, v).1 == InsertNibs(Extension(a, d), k, v).1
    ensures Loose(H, InsertNibs(Extension(a, c), k, v).0, InsertNibs(Extension(a, d), k, v).0, path, gone)
    decreases d, 1
  {
    hide PrefixNibs, ToEncodedPath, RefOf, Fork, Lcp, Hanging;
    var nibs := PrefixNibs(a);
    var l := Lcp(nibs, k);
    if l == |nibs| {
      InsertLoose(H, c, d, k[l..], v, path + nibs, gone);
    } else if l < |k| {
      var x := if l + 1 < |nibs| then ExtensionAt(nibs[l + 1..], c) else c;
      var y := if l + 1 < |nibs| then ExtensionAt(nibs[l + 1..], d) else d;
      var here := path + nibs[..l] + [nibs[l]];
      assert here + nibs[l + 1..] == path + nibs by { assert nibs == nibs[..l] + [nibs[l]] + nibs[l + 1..]; }
      if l + 1 < |nibs| {
        PathRoundTrip(nibs[l + 1..], false);
      } else {
        assert here == path + nibs;
      }
      LooseFork(H, nibs[..l], nibs[l], x, y, k[l], LeafAt(k[l + 1..], v), path, gone);
    }
  }

  // ----- Deletion -----

  lemma LooseSlotFacts(H: Hasher, a: Slots<Node>, b: Slots<Node>, i: nibble, path: Key, gone: set<Key>)
    requires Canon(Branch(b)) && Loose(H, Branch(a), Branch(b), path, gone) && b[i].Some?
    ensures a[i].Some? && Loose(H, a[i].value, b[i].value, path + [i], gone)
    ensures Canon(a[i].value) && Canon(b[i].value) && !a[i].value.Null? && !b[i].value.Null?
  {
    BranchHangsNot(H, a, b, path, gone);
    assert LooseSlot(H, a[i], b[i], path + [i], gone) && Occupied(b, i);
    LooseCanon(H, a[i].value, b[i].value, path + [i], gone);
    hide RefOf, Hanging, Canon;
  }

  lemma {:induction false} LooseFirstSome(H: Hasher, a: Slots<Node>, b: Slots<Node>, from: nat, path: Key,
                                          gone: set<Key>)
    requires from <= 16 && Loose(H, Branch(a), Branch(b), path, gone)
    ensures FirstSome(a, from) == FirstSome(b, from)
    decreases 16 - from
  {
    BranchHangsNot(H, a, b, path, gone);
    hide RefOf, Hanging;
    if from < 16 {
      assert LooseSlot(H, a[from], b[from], path + [from], gone);
      LooseFirstSome(H, a, b, from + 1, path, gone);
    }
  }

  lemma AdoptHanging(H: Hasher, j: nibble, o: Node, o': Node, path: Key, gone: set<Key>)
    requires Hanging(H, o, o', path + [j], gone)
    ensures Hanging(H, Adopt(j, o).0, Adopt(j, o').0, path, gone)
  {
    hide PrefixNibs, ToEncodedPath, RefOf, IsNormal, Cleared;
    var nibs, all := PrefixNibs(o.prefix), PrefixNibs(o'.prefix);
    assert path + ([j] + nibs) == path + [j] + nibs;
    assert [j] + nibs + all[|nibs|..] == [j] + all;
    MakeHanging(H, [j] + nibs, o.child.digest, o', all[|nibs|..], path, gone);
  }

  lemma AdoptHidden(H: Hasher, j: nibble, d: Bytes32, o': Node, path: Key, gone: set<Key>)
    requires (o'.Leaf? || o'.Extension?) && Canon(o') && RefOf(H, o') == DigestRef(d) && Cleared(path + [j], gone)
    ensures Hanging(H, Adopt(j, Digest(d)).0, Adopt(j, o').0, path, gone)
  {
    hide PrefixNibs, ToEncodedPath, RefOf, IsNormal, Cleared;
    NormalPath(o');
    MakeHanging(H, [j], d, o', PrefixNibs(o'.prefix), path, gone);
  }

  lemma AdoptExtension(H: Hasher, j: nibble, o: Node, o': Node, path: Key, gone: set<Key>)
    requires o.Extension? && o'.Extension? && Loose(H, o, o', path + [j], gone)
    requires !Hanging(H, o, o', path + [j], gone)
    ensures Loose(H, Adopt(j, o).0, Adopt(j, o').0, path, gone)
  {
    hide PrefixNibs, ToEncodedPath, RefOf, IsNormal, Hanging;
    var nibs := PrefixNibs(o.prefix);
    PathRoundTrip([j] + nibs, false);
    assert path + ([j] + nibs) == path + [j] + nibs;
  }

  lemma AdoptBranch(H: Hasher, j: nibble, o: Node, o': Node, path: Key, gone: set<Key>)
    requires (o.Branch? || o.Digest?) && (o'.Branch? || o'.Digest?) && Loose(H, o, o', path + [j], gone)
    ensures Loose(H, Adopt(j, o).0, Adopt(j, o').0, path, gone)
  {
    hide ToEncodedPath, RefOf, Hanging;
    PathRoundTrip([j], false);
  }

  /** The lone sibling moves up; if it is a digest that hides a leaf or an extension, it hangs from now on. */
  lemma AdoptLoose(H: Hasher, j: nibble, o: Node, o': Node, path: Key, gone: set<Key>)
    requires Loose(H, o, o', path + [j], gone) && Canon(o') && !o.Null? && !o'.Null? && Cleared(path + [j], gone)
    ensures Loose(H, Adopt(j, o).0, Adopt(j, o').0, path, gone)
  {
    hide PrefixNibs, ToEncodedPath, RefOf, IsNormal, Cleared, Canon;
    if Hanging(H, o, o', path + [j], gone) {
      AdoptHanging(H, j, o, o', path, gone);
    } else if o'.Leaf? || o'.Extension? {
      if o.Digest? {
        AdoptHidden(H, j, o.digest, o', path, gone);
      } else if o'.Extension? {
        AdoptExtension(H, j, o, o', path, gone);
      }
    } else {
      AdoptBranch(H, j, o, o', path, gone);
    }
  }

  lemma RejoinLoose(H: Hasher, prefix: Path, c: Node, d: Node, path: Key, gone: set<Key>)
    requires Loose(H, c, d, path + PrefixNibs(prefix), gone) && !c.Digest? && Canon(d)
    ensures Loose(H, Rejoin(prefix, c), Rejoin(prefix, d), path, gone)
  {
    hide PrefixNibs, ToEncodedPath, RefOf, IsNormal, Cleared;
    var pre := PrefixNibs(prefix);
    if d.Leaf? || d.Extension? {
      NormalPath(d);
      var all := PrefixNibs(d.prefix);
      if Hanging(H, c, d, path + pre, gone) {
        var nibs := PrefixNibs(c.prefix);
        assert path + (pre + nibs) == path + pre + nibs;
        assert pre + nibs + all[|nibs|..] == pre + all;
        MakeHanging(H, pre + nibs, c.child.digest, d, all[|nibs|..], path, gone);
      } else if d.Extension? {
        PathRoundTrip(pre + all, false);
        assert path + (pre + all) == path + pre + all;
      }
    }
  }

  /** A deletion that meets no digest has the full trie's answer, blind or not, and leaves a loose form of the
      full trie after it. */
  lemma {:induction false} DeleteLoose(H: Hasher, p: Node, t: Node, k: Key, path: Key, gone: set<Key>)
    requires Canon(t) && Loose(H, p, t, path, gone) && path + k in gone && !Unresolved(DeleteNibs(p, k).1)
    ensures DeleteNibs(p, k).1 == DeleteNibs(t, k).1
    ensures Loose(H, DeleteNibs(p, k).0, DeleteNibs(t, k).0, path, gone)
    decreases t, 1
  {
    hide PrefixNibs, RefOf, IsNormal, Collapse, Rejoin, Cleared;
    match (p, t) {
      case (Extension(a, c), Extension(_, d)) =>
        if !Hanging(H, p, t, path, gone) && PrefixNibs(a) <= k { DeleteExtensionLoose(H, a, c, d, k, path, gone); }
      case (Branch(a), Branch(b)) =>
        if k != [] {
          assert LooseSlot(H, a[k[0]], b[k[0]], path + [k[0]], gone);
          if a[k[0]].Some? { DeleteBranchLoose(H, a, b, k, path, gone); }
        }
      case _ =>
    }
  }

  lemma {:induction false} DeleteExtensionLoose(H: Hasher, a: Path, c: Node, d: Node, k: Key, path: Key, gone: set<Key>)
    requires Canon(Extension(a, d)) && Loose(H, c, d, path + PrefixNibs(a), gone) && path + k in gone
    requires PrefixNibs(a) <= k && !Unresolved(DeleteNibs(Extension(a, c), k).1)
    ensures DeleteNibs(Extension(a, c), k).1 == DeleteNibs(Extension(a, d), k).1
    ensures Loose(H, DeleteNibs(Extension(a, c), k).0, DeleteNibs(Extension(a, d), k).0, path, gone)
    decreases d, 2
  {
    hide PrefixNibs, RefOf, IsNormal, Collapse, Rejoin, Cleared, Hanging;
    var nibs := PrefixNibs(a);
    var tail := k[|nibs|..];
    assert path + nibs + tail == path + k by { assert k == nibs + tail; }
    DeleteLoose(H, c, d, tail, path + nibs, gone);
    LooseCanon(H, c, d, path + nibs, gone);
    SameNull(H, c, d, path + nibs, gone);
    DeleteEmpties(c, tail);
    DeleteCanon(d, tail);
    if DeleteNibs(c, tail).1 == Ok(true) {
      RejoinLoose(H, a, DeleteNibs(c, tail).0, DeleteNibs(d, tail).0, path, gone);
    }
  }

  lemma {:induction false} DeleteBranchLoose(H: Hasher, a: Slots<Node>, b: Slots<Node>, k: Key, path: Key,
                                             gone: set<Key>)
    requires Canon(Branch(b)) && Loose(H, Branch(a), Branch(b), path, gone) && path + k in gone
    requires !Unresolved(DeleteNibs(Branch(a), k).1) && k != [] && a[k[0]].Some? && b[k[0]].Some?
    ensures DeleteNibs(Branch(a), k).1 == DeleteNibs(Branch(b), k).1
    ensures Loose(H, DeleteNibs(Branch(a), k).0, DeleteNibs(Branch(b), k).0, path, gone)
    decreases b, 0
  {
    hide PrefixNibs, RefOf, IsNormal, Collapse, Canon, Loose, Cleared;
    var i, tail := k[0], k[1..];
    var c, d := a[i].value, b[i].value;
    LooseSlotFacts(H, a, b, i, path, gone);
    assert path + [i] + tail == path + k by { assert k == [i] + tail; }
    DeleteLoose(H, c, d, tail, path + [i], gone);
    DeleteUnchanged(Branch(a), k);
    DeleteUnchanged(Branch(b), k);
    DeleteUnchanged(c, tail);
    DeleteUnchanged(d, tail);
    DeleteCanon(d, tail);
    if DeleteNibs(c, tail).1 == Ok(true) {
      var c', d' := DeleteNibs(c, tail).0, DeleteNibs(d, tail).0;
      SameNull(H, c', d', path + [i], gone);
      if c'.Null? {
        SiblingLoose(H, a, b, k, path, gone);
      } else {
        SurvivorLoose(H, a, b, i, c', d', path, gone);
      }
    }
  }

  lemma SameNull(H: Hasher, p: Node, t: Node, path: Key, gone: set<Key>)
    requires Loose(H, p, t, path, gone)
    ensures p.Null? <==> t.Null?
  {
    hide PrefixNibs, IsNormal;
  }

  /** The child is gone: the branch stays or its lone sibling moves up. */
  lemma SiblingLoose(H: Hasher, a: Slots<Node>, b: Slots<Node>, k: Key, path: Key, gone: set<Key>)
    requires Canon(Branch(b)) && Loose(H, Branch(a), Branch(b), path, gone)
    requires k != [] && a[k[0]].Some? && b[k[0]].Some? && path + k in gone
    ensures Collapse(a[k[0] := None]).1 == Collapse(b[k[0] := None]).1
    ensures Loose(H, Collapse(a[k[0] := None]).0, Collapse(b[k[0] := None]).0, path, gone)
  {
    hide PrefixNibs, RefOf, IsNormal, Canon, Adopt, Loose;
    var i := k[0];
    LooseCanon(H, Branch(a), Branch(b), path, gone);
    CanonCollapse(a, i, Null) by { assert Occupied(a, i) && Canon(Null) by { CanonNull(); } }
    CanonCollapse(b, i, Null) by { assert Occupied(b, i) && Canon(Null) by { CanonNull(); } }
    var x: Slots<Node>, y: Slots<Node> := a[i := None], b[i := None];
    LooseBranchUpdate(H, a, b, i, None, None, path, gone);
    var j := FirstSome(x, 0);
    LooseFirstSome(H, x, y, 0, path, gone);
    if j < 16 {
      LooseFirstSome(H, x, y, j + 1, path, gone);
      if FirstSome(x, j + 1) == 16 {
        LooseSlotFacts(H, a, b, j, path, gone);
        BesideSibling(path, k, j, gone);
        AdoptLoose(H, j, a[j].value, b[j].value, path, gone);
      }
    }
  }

  lemma BesideSibling(path: Key, k: Key, j: nibble, gone: set<Key>)
    requires k != [] && k[0] != j && path + k in gone
    ensures Cleared(path + [j], gone)
  {
    assert (path + k)[..|path|] == path && (path + [j])[..|path|] == path;
    assert Beside(path + k, path + [j]);
  }

  /** The child changed but is still there: the branch stays. */
  lemma SurvivorLoose(H: Hasher, a: Slots<Node>, b: Slots<Node>, i: nibble, c: Node, d: Node, path: Key, gone: set<Key>)
    requires Canon(Branch(b)) && Loose(H, Branch(a), Branch(b), path, gone) && Loose(H, c, d, path + [i], gone)
    requires a[i].Some? && b[i].Some?
    ensures Collapse(a[i := Some(c)]).1 == Collapse(b[i := Some(d)]).1
    ensures Loose(H, Collapse(a[i := Some(c)]).0, Collapse(b[i := Some(d)]).0, path, gone)
  {
    LooseCanon(H, Branch(a), Branch(b), path, gone);
    ForkedUpdate(a, i, c);
    ForkedUpdate(b, i, d);
    hide Loose, Canon;
    CollapseForked(a[i := Some(c)]);
    CollapseForked(b[i := Some(d)]);
    LooseBranchUpdate(H, a, b, i, Some(c), Some(d), path, gone);
  }
}
