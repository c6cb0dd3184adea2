/** The trie as it is in memory: nodes that own their children and are changed in place, each with a
    cached reference. The value of a node is kept in the ghost field `Model`; every operation is
    proved to change it as the operation of module `Mpt` does, and to keep every cached reference,
    anywhere in the tree, equal to the reference it caches. */
module TrieHeap {
  import opened Bytes
  import opened HexPrefix
  import Mpt
  import opened Rlp
  import opened TrieHash
  import TrieCodec

  datatype NodeData =
    | Null
    | Branch(children: seq<MptNode?>)
    | Leaf(prefix: Path, value: Mpt.Value)
    | Extension(prefix: Path, child: MptNode)
    | Digest(digest: Bytes32)

  /** Node `c` and all below it lie in `kin`, and its value is `model`. */
  ghost predicate Kid(H: Hasher, c: MptNode, kin: set<MptNode>, model: Mpt.Node)
    reads kin
    decreases kin, 1
  {
    c in kin && c in c.Repr && c.Repr <= kin && c.Model == model && c.Valid(H)
  }

  /** The children lie in `kin`, share nothing, and have the values `slots`. */
  ghost predicate Kids(H: Hasher, cs: seq<MptNode?>, kin: set<MptNode>, slots: seq<Option<Mpt.Node>>)
    reads kin
    decreases kin, 2
  {
    && |cs| == |slots|
    && (forall i :: 0 <= i < |cs| ==> (cs[i] == null <==> slots[i].None?))
    && (forall i :: 0 <= i < |cs| && cs[i] != null ==> Kid(H, cs[i], kin, slots[i].value))
    && (forall i, j :: 0 <= i < |cs| && 0 <= j < |cs| && i != j && cs[i] != null && cs[j] != null ==>
          cs[i].Repr !! cs[j].Repr)
  }

  lemma KidWiden(H: Hasher, c: MptNode, kin: set<MptNode>, more: set<MptNode>, model: Mpt.Node)
    requires Kid(H, c, kin, model) && kin <= more
    ensures Kid(H, c, more, model)
  {
  }

  /** All children but `i` are as `slots` says, and apart from `child`. */
  ghost predicate Siblings(H: Hasher, cs: seq<MptNode?>, i: int, child: MptNode, kin: set<MptNode>,
                           slots: seq<Option<Mpt.Node>>)
    reads kin, child
  {
    && |cs| == |slots|
    && (forall j :: 0 <= j < |cs| && j != i ==> (cs[j] == null <==> slots[j].None?))
    && (forall j :: 0 <= j < |cs| && j != i && cs[j] != null ==>
          Kid(H, cs[j], kin, slots[j].value) && cs[j].Repr !! child.Repr)
    && (forall j, l ::
          0 <= j < |cs| && 0 <= l < |cs| && j != l && j != i && l != i && cs[j] != null && cs[l] != null ==>
          cs[j].Repr !! cs[l].Repr)
  }

  lemma KidsJoin(H: Hasher, cs: seq<MptNode?>, i: nat, child: MptNode, kin: set<MptNode>, slots: seq<Option<Mpt.Node>>)
    requires i < |cs| && Siblings(H, cs, i, child, kin, slots) && child.Valid(H)
    ensures Kids(H, cs[i := child], kin + child.Repr, slots[i := Some(child.Model)])
  {
    forall j | 0 <= j < |cs| && j != i && cs[j] != null
      ensures Kid(H, cs[j], kin + child.Repr, slots[j].value)
    {
      KidWiden(H, cs[j], kin, kin + child.Repr, slots[j].value);
    }
    assert Kid(H, child, kin + child.Repr, child.Model);
  }

  lemma KidsAppend(H: Hasher, cs: seq<MptNode?>, c: MptNode, kin: set<MptNode>, slots: seq<Option<Mpt.Node>>)
    requires Kids(H, cs, kin, slots) && c.Valid(H) && c.Repr !! kin
    ensures Kids(H, cs + [c], kin + c.Repr, slots + [Some(c.Model)])
  {
    KidsWiden(H, cs, kin, kin + c.Repr, slots);
    assert forall j :: 0 <= j < |cs| && cs[j] != null ==> Kid(H, cs[j], kin, slots[j].value);
  }

  lemma KidsDrop(H: Hasher, cs: seq<MptNode?>, i: nat, child: MptNode, kin: set<MptNode>, slots: seq<Option<Mpt.Node>>)
    requires i < |cs| && Siblings(H, cs, i, child, kin, slots)
    ensures Kids(H, cs[i := null], kin, slots[i := None])
  {
  }

  lemma KidsWiden(H: Hasher, cs: seq<MptNode?>, kin: set<MptNode>, more: set<MptNode>, slots: seq<Option<Mpt.Node>>)
    requires Kids(H, cs, kin, slots) && kin <= more
    ensures Kids(H, cs, more, slots)
  {
    forall j | 0 <= j < |cs| && cs[j] != null ensures Kid(H, cs[j], more, slots[j].value) {
      KidWiden(H, cs[j], kin, more, slots[j].value);
    }
  }

  /** The first child at or after `from`. */
  method NextChild(cs: seq<MptNode?>, from: nat, ghost slots: Mpt.Slots<Mpt.Node>) returns (i: nat)
    requires |cs| == 16 && from <= 16 && forall j :: 0 <= j < 16 ==> (cs[j] == null <==> slots[j].None?)
    ensures i == Mpt.FirstSome(slots, from)
  {
    i := from;
    while i < 16 && cs[i] == null
      invariant from <= i <= 16 && Mpt.FirstSome(slots, from) == Mpt.FirstSome(slots, i)
    {
      i := i + 1;
    }
  }

  class MptNode {
    var data: NodeData
    var cachedReference: Option<Reference>
    ghost var Repr: set<MptNode>
    ghost var Model: Mpt.Node

    /** The node owns its children exclusively, `Model` is its value, and cached references are right. */
    ghost predicate Valid(H: Hasher)
      reads this, Repr
      decreases Repr, 0
    {
      && this in Repr
      && (cachedReference.Some? ==> cachedReference.value == RefOf(H, Model))
      && match data
         case Null => Model == Mpt.Null
         case Leaf(prefix, value) => Model == Mpt.Leaf(prefix, value)
         case Digest(digest) => Model == Mpt.Digest(digest)
         case Extension(prefix, child) =>
           Model.Extension? && Model.prefix == prefix && Kid(H, child, Repr - {this}, Model.child)
         case Branch(cs) => |cs| == 16 && Model.Branch? && Kids(H, cs, Repr - {this}, Model.children)
    }

    constructor MakeLeaf(ghost H: Hasher, prefix: Path, value: Mpt.Value)
      ensures Valid(H) && fresh(Repr) && Model == Mpt.Leaf(prefix, value)
    {
      data, cachedReference := Leaf(prefix, value), None;
      Repr, Model := {this}, Mpt.Leaf(prefix, value);
    }

    constructor MakeNull(ghost H: Hasher)
      ensures Valid(H) && fresh(Repr) && Model == Mpt.Null
    {
      data, cachedReference := Null, None;
      Repr, Model := {this}, Mpt.Null;
    }

    constructor MakeExtension(ghost H: Hasher, prefix: Path, child: MptNode)
      requires child.Valid(H)
      ensures Valid(H) && Repr == {this} + child.Repr && Model == Mpt.Extension(prefix, child.Model)
    {
      data, cachedReference := Extension(prefix, child), None;
      Repr, Model := {this} + child.Repr, Mpt.Extension(prefix, child.Model);
    }

    /** `clear` */
    method Clear(ghost H: Hasher)
      requires Valid(H)
      modifies this
      ensures Valid(H) && Repr == old(Repr) && Model == Mpt.Null && cachedReference == None
    {
      data, Model := Null, Mpt.Null;
      InvalidateRefCache();
    }

    /** The node is overwritten by a digest. */
    method BecomeDigest(ghost H: Hasher, digest: Bytes32)
      requires Valid(H)
      modifies this
      ensures Valid(H) && Repr == old(Repr) && Model == Mpt.Digest(digest)
    {
      data, Model := Digest(digest), Mpt.Digest(digest);
      InvalidateRefCache();
    }

    method InvalidateRefCache()
      modifies this`cachedReference
      ensures cachedReference == None
    {
      cachedReference := None;
    }

    method InsertInternal(ghost H: Hasher, k: Mpt.Key, v: Mpt.Value) returns (r: Mpt.Result<bool>)
      requires Valid(H)
      modifies Repr
      ensures Valid(H) && fresh(Repr - old(Repr))
      ensures (Model, r) == Mpt.InsertNibs(old(Model), k, v)
      decreases Repr, 1
    {
      match data {
        case Null =>
          data := Leaf(ToEncodedPath(k, true), v);
          Model := Mpt.LeafAt(k, v);
          InvalidateRefCache();
          return Mpt.Ok(true);
        case Branch(cs) =>
          if k == [] {
            return Mpt.Err(Mpt.ValueInBranch);
          }
          if cs[k[0]] != null {
            r := InsertIntoChild(H, k, v);
          } else {
            r := InsertIntoSlot(H, k, v);
          }
        case Leaf(_, _) =>
          r := InsertIntoLeaf(H, k, v);
        case Extension(prefix, _) =>
          var nibs := PrefixNibsLoop(prefix);
          var l := LcpLoop(nibs, k);
          if l == |nibs| {
            r := InsertBelowExtension(H, l, k, v);
          } else if l == |k| {
            return Mpt.Err(Mpt.ValueInBranch);
          } else {
            SplitExtension(H, nibs, l, k, v);
            return Mpt.Ok(true);
          }
        case Digest(digest) =>
          return Mpt.Err(Mpt.NodeNotResolved(digest));
      }
    }

    method InsertIntoSlot(ghost H: Hasher, k: Mpt.Key, v: Mpt.Value) returns (r: Mpt.Result<bool>)
      requires Valid(H) && data.Branch? && k != [] && data.children[k[0]] == null
      modifies this
      ensures Valid(H) && fresh(Repr - old(Repr))
      ensures (Model, r) == Mpt.InsertNibs(old(Model), k, v)
    {
      hide PrefixNibs, ToEncodedPath, RefOf;
      ghost var slots, kin := Model.children, Repr - {this};
      var cs, i := data.children, k[0];
      var leaf := new MptNode.MakeLeaf(H, ToEncodedPath(k[1..], true), v);
      assert Kids(H, cs[i := leaf], kin + leaf.Repr, slots[i := Some(leaf.Model)]) by {
        assert forall j :: 0 <= j < 16 && cs[j] != null ==> Kid(H, cs[j], kin, slots[j].value);
      }
      data := Branch(cs[i := leaf]);
      Repr, Model := Repr + leaf.Repr, Mpt.Branch(slots[i := Some(leaf.Model)]);
      InvalidateRefCache();
      assert Repr - {this} == kin + leaf.Repr;
      r := Mpt.Ok(true);
    }

    method InsertIntoChild(ghost H: Hasher, k: Mpt.Key, v: Mpt.Value) returns (r: Mpt.Result<bool>)
      requires Valid(H) && data.Branch? && k != [] && data.children[k[0]] != null
      modifies Repr
      ensures Valid(H) && fresh(Repr - old(Repr))
      ensures (Model, r) == Mpt.InsertNibs(old(Model), k, v)
      decreases Repr, 0
    {
      hide PrefixNibs, ToEncodedPath, RefOf;
      ghost var slots, kin := Model.children, Repr - {this};
      var cs, i := data.children, k[0];
      var child := cs[i];
      Mpt.InsertUnchanged(child.Model, k[1..], v);
      assert Kid(H, child, kin, slots[i].value) && Siblings(H, cs, i, child, kin, slots);
      r := child.InsertInternal(H, k[1..], v);
      assert Siblings(H, cs, i, child, kin, slots);
      KidsJoin(H, cs, i, child, kin, slots);
      assert cs[i := child] == cs;
      Repr, Model := Repr + child.Repr, Mpt.Branch(slots[i := Some(child.Model)]);
      assert Repr - {this} == kin + child.Repr;
      if r == Mpt.Ok(true) {
        InvalidateRefCache();
      } else {
        assert slots[i := Some(child.Model)] == slots;
      }
    }

    /** Turns this node into a branch over two nodes, below an extension if they share a path. */
    method BecomeFork(ghost H: Hasher, common: Mpt.Key, i: nibble, a: MptNode, j: nibble, b: MptNode)
      requires i != j && a.Valid(H) && b.Valid(H) && a.Repr !! b.Repr
      requires this !in a.Repr && this !in b.Repr
      modifies this
      ensures Valid(H) && {this} + a.Repr + b.Repr <= Repr && fresh(Repr - {this} - a.Repr - b.Repr)
      ensures Model == Mpt.Fork(common, i, a.Model, j, b.Model)
    {
      hide ToEncodedPath, RefOf;
      var cs: seq<MptNode?> := seq(16, _ => null);
      cs := cs[i := a][j := b];
      ghost var kin, slots := a.Repr + b.Repr, Mpt.EmptySlots()[i := Some(a.Model)][j := Some(b.Model)];
      assert Kids(H, cs, kin, slots);
      if common == [] {
        data := Branch(cs);
        Repr, Model := {this} + kin, Mpt.Branch(slots);
        assert Repr - {this} == kin;
      } else {
        var branch := new MptNode.MakeBranch(H, cs, kin, slots);
        data := Extension(ToEncodedPath(common, false), branch);
        Repr, Model := {this} + branch.Repr, Mpt.ExtensionAt(common, branch.Model);
        assert Repr - {this} == branch.Repr;
      }
      InvalidateRefCache();
    }

    constructor MakeBranch(ghost H: Hasher, cs: seq<MptNode?>, ghost kin: set<MptNode>,
                           ghost slots: Mpt.Slots<Mpt.Node>)
      requires Kids(H, cs, kin, slots)
      ensures Valid(H) && Repr == {this} + kin && this !in kin && Model == Mpt.Branch(slots)
    {
      data, cachedReference := Branch(cs), None;
      Repr, Model := {this} + kin, Mpt.Branch(slots);
      new;
      assert Repr - {this} == kin;
    }

    method InsertIntoLeaf(ghost H: Hasher, k: Mpt.Key, v: Mpt.Value) returns (r: Mpt.Result<bool>)
      requires Valid(H) && data.Leaf?
      modifies this
      ensures Valid(H) && fresh(Repr - old(Repr))
      ensures (Model, r) == Mpt.InsertNibs(old(Model), k, v)
    {
      hide PrefixNibs, ToEncodedPath, RefOf;
      var nibs := PrefixNibsLoop(data.prefix);
      var l := LcpLoop(nibs, k);
      if l == |nibs| && l == |k| {
        if data.value == v {
          return Mpt.Ok(false);
        }
        data, Model := data.(value := v), Mpt.Leaf(data.prefix, v);
        InvalidateRefCache();
      } else if l == |nibs| || l == |k| {
        return Mpt.Err(Mpt.ValueInBranch);
      } else {
        SplitLeaf(H, nibs, l, k, v);
      }
      r := Mpt.Ok(true);
    }

    method SplitLeaf(ghost H: Hasher, nibs: Mpt.Key, l: nat, k: Mpt.Key, v: Mpt.Value)
      requires Valid(H) && data.Leaf? && nibs == PrefixNibs(data.prefix)
      requires l == Lcp(nibs, k) && l < |nibs| && l < |k|
      modifies this
      ensures Valid(H) && fresh(Repr - old(Repr))
      ensures (Model, Mpt.Ok(true)) == Mpt.InsertNibs(old(Model), k, v)
    {
      hide PrefixNibs, ToEncodedPath, RefOf;
      var a := new MptNode.MakeLeaf(H, ToEncodedPath(nibs[l + 1..], true), data.value);
      var b := new MptNode.MakeLeaf(H, ToEncodedPath(k[l + 1..], true), v);
      BecomeFork(H, nibs[..l], nibs[l], a, k[l], b);
    }

    method InsertBelowExtension(ghost H: Hasher, l: nat, k: Mpt.Key, v: Mpt.Value) returns (r: Mpt.Result<bool>)
      requires Valid(H) && data.Extension? && l == Lcp(PrefixNibs(data.prefix), k) == |PrefixNibs(data.prefix)|
      modifies Repr
      ensures Valid(H) && fresh(Repr - old(Repr))
      ensures (Model, r) == Mpt.InsertNibs(old(Model), k, v)
      decreases Repr, 0
    {
      hide PrefixNibs, ToEncodedPath, RefOf;
      var child := data.child;
      Mpt.InsertUnchanged(child.Model, k[l..], v);
      r := child.InsertInternal(H, k[l..], v);
      Repr, Model := Repr + child.Repr, Mpt.Extension(data.prefix, child.Model);
      if r == Mpt.Ok(true) {
        InvalidateRefCache();
      }
    }

    method SplitExtension(ghost H: Hasher, nibs: Mpt.Key, l: nat, k: Mpt.Key, v: Mpt.Value)
      requires Valid(H) && data.Extension? && nibs == PrefixNibs(data.prefix)
      requires l == Lcp(nibs, k) && l < |nibs| && l < |k|
      modifies this
      ensures Valid(H) && fresh(Repr - old(Repr))
      ensures (Model, Mpt.Ok(true)) == Mpt.InsertNibs(old(Model), k, v)
    {
      hide PrefixNibs, ToEncodedPath, RefOf;
      var rest := data.child;
      if l + 1 < |nibs| {
        rest := new MptNode.MakeExtension(H, ToEncodedPath(nibs[l + 1..], false), rest);
      }
      var b := new MptNode.MakeLeaf(H, ToEncodedPath(k[l + 1..], true), v);
      BecomeFork(H, nibs[..l], nibs[l], rest, k[l], b);
    }

    method GetInternal(ghost H: Hasher, k: Mpt.Key) returns (r: Mpt.Result<Option<Mpt.Value>>)
      requires Valid(H)
      ensures r == Mpt.GetNibs(Model, k)
      decreases Repr
    {
      hide PrefixNibs, RefOf;
      match data {
        case Null => return Mpt.Ok(None);
        case Branch(cs) =>
          if k == [] || cs[k[0]] == null {
            return Mpt.Ok(None);
          }
          assert Kid(H, cs[k[0]], Repr - {this}, Model.children[k[0]].value);
          r := cs[k[0]].GetInternal(H, k[1..]);
        case Leaf(prefix, value) =>
          var nibs := PrefixNibsLoop(prefix);
          return Mpt.Ok(if nibs == k then Some(value) else None);
        case Extension(prefix, child) =>
          var nibs := PrefixNibsLoop(prefix);
          if nibs <= k {
            r := child.GetInternal(H, k[|nibs|..]);
          } else {
            return Mpt.Ok(None);
          }
        case Digest(digest) => return Mpt.Err(Mpt.NodeNotResolved(digest));
      }
    }

    method DeleteInternal(ghost H: Hasher, k: Mpt.Key) returns (r: Mpt.Result<bool>)
      requires Valid(H)
      modifies Repr
      ensures r == Mpt.DeleteNibs(old(Model), k).1
      ensures !r.Panic? ==>
        Valid(H) && fresh(Repr - old(Repr)) && Model == Mpt.DeleteNibs(old(Model), k).0
      decreases Repr, 1
    {
      match data {
        case Null => return Mpt.Ok(false);
        case Branch(cs) =>
          if k == [] {
            return Mpt.Err(Mpt.ValueInBranch);
          }
          if cs[k[0]] == null {
            return Mpt.Ok(false);
          }
          r := DeleteFromChild(H, k);
        case Leaf(prefix, _) =>
          var nibs := PrefixNibsLoop(prefix);
          if nibs != k {
            return Mpt.Ok(false);
          }
          Clear(H);
          return Mpt.Ok(true);
        case Extension(prefix, child) =>
          var nibs := PrefixNibsLoop(prefix);
          if !(nibs <= k) {
            return Mpt.Ok(false);
          }
          r := DeleteBelowExtension(H, nibs, k);
        case Digest(digest) => return Mpt.Err(Mpt.NodeNotResolved(digest));
      }
    }

    method DeleteFromChild(ghost H: Hasher, k: Mpt.Key) returns (r: Mpt.Result<bool>)
      requires Valid(H) && data.Branch? && k != [] && data.children[k[0]] != null
      modifies Repr
      ensures r == Mpt.DeleteNibs(old(Model), k).1
      ensures !r.Panic? ==>
        Valid(H) && fresh(Repr - old(Repr)) && Model == Mpt.DeleteNibs(old(Model), k).0
      decreases Repr, 0
    {
      hide PrefixNibs, ToEncodedPath, RefOf, Mpt.Collapse, Mpt.Rejoin;
      ghost var slots, kin := Model.children, Repr - {this};
      var cs, i := data.children, k[0];
      var child := cs[i];
      Mpt.DeleteUnchanged(child.Model, k[1..]);
      assert Kid(H, child, kin, slots[i].value) && Siblings(H, cs, i, child, kin, slots);
      r := child.DeleteInternal(H, k[1..]);
      if r.Panic? {
        return;
      }
      assert Siblings(H, cs, i, child, kin, slots);
      if r != Mpt.Ok(true) {
        KidsJoin(H, cs, i, child, kin, slots);
        assert cs[i := child] == cs && slots[i := Some(child.Model)] == slots;
        Repr := Repr + child.Repr;
        assert Repr - {this} == kin + child.Repr;
      } else {
        ghost var kin' := kin + child.Repr;
        if child.data.Null? {
          KidsDrop(H, cs, i, child, kin, slots);
          KidsWiden(H, cs[i := null], kin, kin', slots[i := None]);
          r := CollapseBranch(H, cs[i := null], kin', slots[i := None]);
        } else {
          KidsJoin(H, cs, i, child, kin, slots);
          assert cs[i := child] == cs;
          r := CollapseBranch(H, cs, kin', slots[i := Some(child.Model)]);
        }
      }
    }

    /** The branch after its children became `cs`: make room for a lone remaining child. */
    method CollapseBranch(ghost H: Hasher, cs: seq<MptNode?>, ghost kin: set<MptNode>, ghost slots: Mpt.Slots<Mpt.Node>)
      returns (r: Mpt.Result<bool>)
      requires this !in kin && Kids(H, cs, kin, slots)
      modifies this
      ensures r == Mpt.Collapse(slots).1
      ensures !r.Panic? ==> Valid(H) && Repr == {this} + kin && Model == Mpt.Collapse(slots).0
    {
      hide PrefixNibs, ToEncodedPath, RefOf, Mpt.Adopt, Mpt.FirstSome;
      var index := NextChild(cs, 0, slots);
      if index == 16 {
        return Mpt.Panic;
      }
      var second := NextChild(cs, index + 1, slots);
      Repr := {this} + kin;
      assert Repr - {this} == kin;
      if second < 16 {
        data, Model := Branch(cs), Mpt.Branch(slots);
        InvalidateRefCache();
        return Mpt.Ok(true);
      }
      assert Kid(H, cs[index], kin, slots[index].value);
      r := AdoptOrphan(H, index, cs[index]);
    }

    method AdoptOrphan(ghost H: Hasher, index: nibble, orphan: MptNode) returns (r: Mpt.Result<bool>)
      requires this in Repr && Kid(H, orphan, Repr - {this}, orphan.Model)
      modifies this`data, this`Model, this`cachedReference
      ensures r == Mpt.Adopt(index, orphan.Model).1
      ensures !r.Panic? ==> Valid(H) && Model == Mpt.Adopt(index, orphan.Model).0
    {
      hide PrefixNibs, ToEncodedPath, RefOf;
      ghost var kin := Repr - {this};
      assert orphan.Valid(H);
      match orphan.data {
        case Leaf(prefix, value) =>
          var nibs := PrefixNibsLoop(prefix);
          data := Leaf(ToEncodedPath([index] + nibs, true), value);
          Model := Mpt.LeafAt([index] + nibs, value);
        case Extension(prefix, child) =>
          var nibs := PrefixNibsLoop(prefix);
          KidWiden(H, child, orphan.Repr - {orphan}, kin, orphan.Model.child);
          data := Extension(ToEncodedPath([index] + nibs, false), child);
          Model := Mpt.ExtensionAt([index] + nibs, child.Model);
        case Null => return Mpt.Panic;
        case _ =>
          data := Extension(ToEncodedPath([index], false), orphan);
          Model := Mpt.ExtensionAt([index], orphan.Model);
      }
      InvalidateRefCache();
      r := Mpt.Ok(true);
    }

    method DeleteBelowExtension(ghost H: Hasher, nibs: Mpt.Key, k: Mpt.Key) returns (r: Mpt.Result<bool>)
      requires Valid(H) && data.Extension? && nibs == PrefixNibs(data.prefix) && nibs <= k
      modifies Repr
      ensures r == Mpt.DeleteNibs(old(Model), k).1
      ensures !r.Panic? ==>
        Valid(H) && fresh(Repr - old(Repr)) && Model == Mpt.DeleteNibs(old(Model), k).0
      decreases Repr, 0
    {
      hide PrefixNibs, ToEncodedPath, RefOf, Mpt.Collapse, Mpt.Rejoin;
      var child := data.child;
      Mpt.DeleteUnchanged(child.Model, k[|nibs|..]);
      r := child.DeleteInternal(H, k[|nibs|..]);
      if r.Panic? {
        return;
      }
      Repr := Repr + child.Repr;
      if r == Mpt.Ok(true) {
        RejoinChild(H, nibs);
      }
    }

    method RejoinChild(ghost H: Hasher, nibs: Mpt.Key)
      requires this in Repr && data.Extension? && nibs == PrefixNibs(data.prefix)
      requires Kid(H, data.child, Repr - {this}, data.child.Model)
      modifies this`data, this`Model, this`cachedReference
      ensures Valid(H) && Model == Mpt.Rejoin(old(data.prefix), old(data.child.Model))
    {
      hide PrefixNibs, ToEncodedPath, RefOf;
      var child := data.child;
      ghost var kin := Repr - {this};
      assert child.Valid(H);
      match child.data {
        case Null => data, Model := Null, Mpt.Null;
        case Leaf(prefix, value) =>
          var tail := PrefixNibsLoop(prefix);
          data := Leaf(ToEncodedPath(nibs + tail, true), value);
          Model := Mpt.LeafAt(nibs + tail, value);
        case Extension(prefix, node) =>
          var tail := PrefixNibsLoop(prefix);
          KidWiden(H, node, child.Repr - {child}, kin, child.Model.child);
          data := Extension(ToEncodedPath(nibs + tail, false), node);
          Model := Mpt.ExtensionAt(nibs + tail, node.Model);
        case _ => Model := Mpt.Extension(data.prefix, child.Model);
      }
      InvalidateRefCache();
    }

    // ----- Byte keys -----

    method Get(ghost H: Hasher, key: seq<byte>) returns (r: Mpt.Result<Option<Mpt.Value>>)
      requires Valid(H)
      ensures r == Mpt.GetNibs(Model, Nibbles(key))
    {
      var nibs := ToNibs(key);
      r := GetInternal(H, nibs);
    }

    /** An empty value is refused by a panic before anything changes. */
    method Insert(ghost H: Hasher, key: seq<byte>, v: Mpt.Value) returns (r: Mpt.Result<bool>)
      requires Valid(H)
      modifies Repr
      ensures Valid(H) && fresh(Repr - old(Repr))
      ensures v == [] ==> r.Panic? && unchanged(old(Repr))
      ensures v != [] ==> (Model, r) == Mpt.InsertNibs(old(Model), Nibbles(key), v)
    {
      if v == [] {
        return Mpt.Panic;
      }
      var nibs := ToNibs(key);
      r := InsertInternal(H, nibs, v);
    }

    method Delete(ghost H: Hasher, key: seq<byte>) returns (r: Mpt.Result<bool>)
      requires Valid(H)
      modifies Repr
      ensures r == Mpt.DeleteNibs(old(Model), Nibbles(key)).1
      ensures !r.Panic? ==>
        Valid(H) && fresh(Repr - old(Repr)) && Model == Mpt.DeleteNibs(old(Model), Nibbles(key)).0
    {
      var nibs := ToNibs(key);
      r := DeleteInternal(H, nibs);
    }

    /** `reference`: the cached reference, computed on first use. Children fill their caches on the
        way; the value of no node changes. */
    method Reference(H: Hasher) returns (ref: Reference)
      requires Valid(H)
      modifies Repr`cachedReference
      ensures Valid(H) && ref == RefOf(H, Model) && cachedReference == Some(ref)
      decreases Repr, 4
    {
      hide RefOf;
      if cachedReference.None? {
        ref := CalcReference(H);
        cachedReference := Some(ref);
      }
      ref := cachedReference.value;
    }

    method CalcReference(H: Hasher) returns (ref: Reference)
      requires Valid(H)
      modifies (Repr - {this})`cachedReference
      ensures Valid(H) && ref == RefOf(H, Model)
      decreases Repr, 3
    {
      hide Encode, TrieCodec.PayloadLength;
      match data {
        case Null => return BytesRef(EMPTY_STRING);
        case Digest(digest) => return DigestRef(digest);
        case _ =>
          var encoded := EncodeNode(H);
          return if |encoded| < 32 then BytesRef(encoded) else DigestRef(H(encoded));
      }
    }

    /** `encode`: the header comes from `payload_length`, before the payload is written. */
    method EncodeNode(H: Hasher) returns (out: seq<byte>)
      requires Valid(H)
      modifies (Repr - {this})`cachedReference
      ensures Valid(H) && out == Encode(H, Model)
      decreases Repr, 2
    {
      hide RefOf, HeaderBytes, EncodeString, StringLength, RefBytes, KidBytes;
      match data {
        case Null => return EMPTY_STRING;
        case Digest(digest) => return [0xa0] + digest;
        case Leaf(prefix, value) =>
          var n := StringLength(prefix) + StringLength(value);
          return HeaderBytes(true, n) + EncodeString(prefix) + EncodeString(value);
        case Extension(prefix, child) =>
          var n := child.ReferenceLength(H);
          var bytes := child.ReferenceEncode(H);
          return HeaderBytes(true, StringLength(prefix) + n) + EncodeString(prefix) + bytes;
        case Branch(_) =>
          var n := KidsLengthLoop(H);
          var bytes := KidsEncodeLoop(H);
          TrieCodec.KidsLengthMatches(H, Model.children);
          return HeaderBytes(true, 1 + n) + (bytes + EMPTY_STRING);
      }
    }

    /** `hash`: the root hash, through the caches. */
    method Hash(H: Hasher) returns (h: Bytes32)
      requires Valid(H)
      modifies Repr`cachedReference
      ensures Valid(H) && h == HashOf(H, Model)
    {
      if data.Null? {
        return H(EMPTY_STRING);
      }
      hide RefOf;
      var ref := Reference(H);
      h := match ref case DigestRef(digest) => digest case BytesRef(bytes) => H(bytes);
    }

    method ReferenceEncode(H: Hasher) returns (out: seq<byte>)
      requires Valid(H)
      modifies Repr`cachedReference
      ensures Valid(H) && out == RefBytes(H, Model)
      decreases Repr, 5
    {
      var ref := Reference(H);
      out := match ref case BytesRef(bytes) => bytes case DigestRef(digest) => [0xa0] + digest;
    }

    method ReferenceLength(H: Hasher) returns (n: nat)
      requires Valid(H)
      modifies Repr`cachedReference
      ensures Valid(H) && n == |RefBytes(H, Model)| == TrieCodec.RefLength(H, Model)
      decreases Repr, 5
    {
      var ref := Reference(H);
      n := match ref case BytesRef(bytes) => |bytes| case DigestRef(_) => 33;
    }

    method KidEncode(H: Hasher, i: nat) returns (out: seq<byte>)
      requires Valid(H) && data.Branch? && i < 16
      modifies (Repr - {this})`cachedReference
      ensures Valid(H) && out == KidBytes(H, Model.children[i])
      decreases Repr, 0
    {
      hide RefOf;
      var cs, child := data.children, data.children[i];
      if child == null {
        return EMPTY_STRING;
      }
      ghost var slots, kin := Model.children, Repr - {this};
      assert Kid(H, child, kin, slots[i].value) && Siblings(H, cs, i, child, kin, slots);
      out := child.ReferenceEncode(H);
      assert Siblings(H, cs, i, child, kin, slots);
      KidsJoin(H, cs, i, child, kin, slots);
      assert cs[i := child] == cs && slots[i := Some(child.Model)] == slots && kin + child.Repr == kin;
    }

    method KidsEncodeLoop(H: Hasher) returns (out: seq<byte>)
      requires Valid(H) && data.Branch?
      modifies (Repr - {this})`cachedReference
      ensures Valid(H) && out == KidsBytes(H, Model.children)
      decreases Repr, 1
    {
      hide KidBytes, RefOf;
      out := [];
      for i := 0 to 16
        invariant Valid(H) && out == KidsBytes(H, Model.children[..i])
      {
        var bytes := KidEncode(H, i);
        KidsBytesAppend(H, Model.children[..i], Model.children[i]);
        assert Model.children[..i + 1] == Model.children[..i] + [Model.children[i]];
        out := out + bytes;
      }
      assert Model.children[..16] == Model.children;
    }

    method KidLength(H: Hasher, i: nat) returns (n: nat)
      requires Valid(H) && data.Branch? && i < 16
      modifies (Repr - {this})`cachedReference
      ensures Valid(H) && n == |KidBytes(H, Model.children[i])|
      decreases Repr, 0
    {
      hide RefOf;
      var cs, child := data.children, data.children[i];
      if child == null {
        return 1;
      }
      ghost var slots, kin := Model.children, Repr - {this};
      assert Kid(H, child, kin, slots[i].value) && Siblings(H, cs, i, child, kin, slots);
      n := child.ReferenceLength(H);
      assert Siblings(H, cs, i, child, kin, slots);
      KidsJoin(H, cs, i, child, kin, slots);
      assert cs[i := child] == cs && slots[i := Some(child.Model)] == slots && kin + child.Repr == kin;
    }

    method KidsLengthLoop(H: Hasher) returns (n: nat)
      requires Valid(H) && data.Branch?
      modifies (Repr - {this})`cachedReference
      ensures Valid(H) && n == |KidsBytes(H, Model.children)|
      decreases Repr, 1
    {
      hide KidBytes, RefOf;
      n := 0;
      for i := 0 to 16
        invariant Valid(H) && n == |KidsBytes(H, Model.children[..i])|
      {
        var m := KidLength(H, i);
        KidsBytesAppend(H, Model.children[..i], Model.children[i]);
        assert Model.children[..i + 1] == Model.children[..i] + [Model.children[i]];
        n := n + m;
      }
      assert Model.children[..16] == Model.children;
    }

    /** `clone`: a copy of the whole tree with its caches, sharing nothing with the original. */
    method Clone(ghost H: Hasher) returns (copy: MptNode)
      requires Valid(H)
      ensures copy.Valid(H) && fresh(copy.Repr)
      ensures copy.Model == Model && copy.cachedReference == cachedReference
      decreases Repr, 1
    {
      hide RefOf;
      if data.Branch? {
        copy := CloneBranch(H);
      } else if data.Extension? {
        var c := data.child.Clone(H);
        copy := new MptNode.MakeExtension(H, data.prefix, c);
        copy.cachedReference := cachedReference;
      } else {
        copy := new MptNode.Copy(H, this);
      }
    }

    constructor Copy(ghost H: Hasher, n: MptNode)
      requires n.Valid(H) && (n.data.Null? || n.data.Leaf? || n.data.Digest?)
      ensures Valid(H) && fresh(Repr) && Model == n.Model && cachedReference == n.cachedReference
    {
      data, cachedReference := n.data, n.cachedReference;
      Repr, Model := {this}, n.Model;
    }

    method CloneBranch(ghost H: Hasher) returns (copy: MptNode)
      requires Valid(H) && data.Branch?
      ensures copy.Valid(H) && fresh(copy.Repr)
      ensures copy.Model == Model && copy.cachedReference == cachedReference
      decreases Repr, 0
    {
      hide RefOf;
      ghost var slots := Model.children;
      var cs: seq<MptNode?> := [];
      ghost var kin: set<MptNode> := {};
      for i := 0 to 16
        invariant fresh(kin) && Kids(H, cs, kin, slots[..i])
      {
        var child := data.children[i];
        if child == null {
          cs := cs + [null];
          assert Kids(H, cs, kin, slots[..i + 1]);
        } else {
          assert Kid(H, child, Repr - {this}, slots[i].value);
          var c := child.Clone(H);
          KidsAppend(H, cs, c, kin, slots[..i]);
          assert slots[..i + 1] == slots[..i] + [Some(c.Model)];
          cs, kin := cs + [c], kin + c.Repr;
        }
      }
      assert slots[..16] == slots;
      copy := new MptNode.MakeBranch(H, cs, kin, slots);
      copy.cachedReference := cachedReference;
    }
  }
}
