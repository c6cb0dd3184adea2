/** Visiting all leaves of a trie with an explicit stack. */
module TrieWalk {
  import opened Bytes
  import opened HexPrefix
  import opened Mpt

  datatype Entry = Entry(node: Node, path: Key)
  datatype Pair = Pair(key: Key, value: Value)

  function NodeCount(n: Node): (r: nat)
    ensures r >= 1
  {
    match n
    case Extension(_, child) => 1 + NodeCount(child)
    case Branch(cs) => 1 + KidsCount(cs)
    case _ => 1
  }

  function KidCount(c: Option<Node>): nat
  {
    if c.None? then 0 else NodeCount(c.value)
  }

  function KidsCount(cs: seq<Option<Node>>): nat
  {
    if cs == [] then 0 else KidsCount(cs[..|cs| - 1]) + KidCount(cs[|cs| - 1])
  }

  function StackCount(stack: seq<Entry>): nat
  {
    if stack == [] then 0 else StackCount(stack[..|stack| - 1]) + NodeCount(stack[|stack| - 1].node)
  }

  lemma {:induction false} StackCountConcat(a: seq<Entry>, b: seq<Entry>)
    ensures StackCount(a + b) == StackCount(a) + StackCount(b)
    decreases |b|
  {
    if b == [] {
      assert a + b == a;
    } else {
      StackCountConcat(a, b[..|b| - 1]);
      assert (a + b)[..|a + b| - 1] == a + b[..|b| - 1];
    }
  }

  /** The leaf for `k` with value `v` lies below the entry. */
  predicate Sees(e: Entry, k: Key, v: Value)
  {
    e.path <= k && GetNibs(e.node, k[|e.path|..]) == Ok(Some(v))
  }

  ghost predicate Pending(stack: seq<Entry>, k: Key, v: Value)
  {
    exists j :: 0 <= j < |stack| && Sees(stack[j], k, v)
  }

  /** Neither path continues the other. */
  predicate Apart(a: Key, b: Key)
  {
    !(a <= b) && !(b <= a)
  }

  lemma ApartExtend(a: Key, b: Key, c: Key)
    requires Apart(a, b)
    ensures Apart(a, b + c)
  {
    assert b <= b + c;
    assert b <= a <==> b + c <= a || (b <= a && !(b + c <= a));
  }

  /** What has been reported and what is still on the stack make up the map, with no overlap. */
  ghost predicate Inv(root: Node, stack: seq<Entry>, out: seq<Pair>)
  {
    && (forall k: Key, v: Value ::
          GetNibs(root, k) == Ok(Some(v)) <==> Pair(k, v) in out || Pending(stack, k, v))
    && (forall i, j :: 0 <= i < j < |stack| ==> Apart(stack[i].path, stack[j].path))
    && (forall i, j :: 0 <= i < |out| && 0 <= j < |stack| ==> Apart(out[i].key, stack[j].path))
    && (forall i, j :: 0 <= i < j < |out| ==> out[i].key != out[j].key)
  }

  /** Replacing the top entry by entries below it that see the same leaves. */
  lemma ReplaceTop(root: Node, rest: seq<Entry>, top: Entry, news: seq<Entry>, out: seq<Pair>)
    requires Inv(root, rest + [top], out)
    requires forall k: Key, v: Value :: Pending(news, k, v) <==> Sees(top, k, v)
    requires forall i :: 0 <= i < |news| ==> top.path <= news[i].path
    requires forall i, j :: 0 <= i < j < |news| ==> Apart(news[i].path, news[j].path)
    ensures Inv(root, rest + news, out)
  {
    hide GetNibs;
    var before, after := rest + [top], rest + news;
    forall a: Key, i | Apart(a, top.path) && 0 <= i < |news| ensures Apart(a, news[i].path) {
      ApartExtend(a, top.path, news[i].path[|top.path|..]);
      assert news[i].path == top.path + news[i].path[|top.path|..];
    }
    forall k: Key, v: Value ensures Pending(before, k, v) <==> Pending(after, k, v) {
      PendingConcat(rest, [top], k, v);
      PendingConcat(rest, news, k, v);
      assert Pending([top], k, v) <==> Sees(top, k, v) by { assert [top][0] == top; }
    }
    assert before[|rest|] == top;
    forall i, j | 0 <= i < j < |after| ensures Apart(after[i].path, after[j].path) {
      if i < |rest| {
        assert before[i] == rest[i];
        assert Apart(before[i].path, before[if j < |rest| then j else |rest|].path);
      }
    }
    forall i, j | 0 <= i < |out| && 0 <= j < |after| ensures Apart(out[i].key, after[j].path) {
      assert Apart(out[i].key, before[if j < |rest| then j else |rest|].path);
    }
  }

  lemma PendingConcat(a: seq<Entry>, b: seq<Entry>, k: Key, v: Value)
    ensures Pending(a + b, k, v) <==> Pending(a, k, v) || Pending(b, k, v)
  {
    if Pending(a, k, v) {
      var j :| 0 <= j < |a| && Sees(a[j], k, v);
      assert (a + b)[j] == a[j];
    }
    if Pending(b, k, v) {
      var j :| 0 <= j < |b| && Sees(b[j], k, v);
      assert (a + b)[|a| + j] == b[j];
    }
  }

  /** Reporting the top entry when it is a leaf. */
  lemma ReportTop(root: Node, rest: seq<Entry>, top: Entry, out: seq<Pair>)
    requires Inv(root, rest + [top], out) && top.node.Leaf?
    ensures Inv(root, rest, out + [Pair(top.path + PrefixNibs(top.node.prefix), top.node.value)])
  {
    hide PrefixNibs;
    var nibs := PrefixNibs(top.node.prefix);
    var stack := rest + [top];
    var p := Pair(top.path + nibs, top.node.value);
    assert stack[|rest|] == top;
    forall k: Key, v: Value ensures Sees(top, k, v) <==> Pair(k, v) == p {
      if top.path <= k { assert k == top.path + k[|top.path|..]; }
    }
    forall k: Key, v: Value ensures Pending(stack, k, v) <==> Pending(rest, k, v) || Pair(k, v) == p {
      PendingConcat(rest, [top], k, v);
      assert Pending([top], k, v) <==> Sees(top, k, v) by { assert [top][0] == top; }
    }
    forall i | 0 <= i < |out| ensures out[i].key != p.key {
      assert Apart(out[i].key, stack[|rest|].path);
    }
    forall i, j | 0 <= i < |out| + 1 && 0 <= j < |rest| ensures Apart((out + [p])[i].key, rest[j].path) {
      assert stack[j] == rest[j];
      if i == |out| {
        assert Apart(stack[j].path, stack[|rest|].path);
        ApartExtend(rest[j].path, top.path, nibs);
      }
    }
    forall i, j | 0 <= i < j < |rest| ensures Apart(rest[i].path, rest[j].path) {
      assert Apart(stack[i].path, stack[j].path);
    }
  }

  /** The entries pushed for the first `n` slots of a branch. */
  ghost function Pushed(cs: Slots<Node>, path: Key, n: nat): seq<Entry>
    requires n <= 16
  {
    if n == 0 then [] else
      Pushed(cs, path, n - 1) + (if cs[n - 1].None? then [] else [Entry(cs[n - 1].value, path + [n - 1])])
  }

  predicate Under(e: Entry, path: Key, n: nat)
  {
    |e.path| == |path| + 1 && path <= e.path && e.path[|path|] < n
  }

  lemma {:induction false} PushedFacts(cs: Slots<Node>, path: Key, n: nat)
    requires n <= 16
    ensures forall e :: e in Pushed(cs, path, n) ==> Under(e, path, n)
    ensures forall i, j :: 0 <= i < j < |Pushed(cs, path, n)| ==>
              Apart(Pushed(cs, path, n)[i].path, Pushed(cs, path, n)[j].path)
  {
    if n > 0 {
      PushedFacts(cs, path, n - 1);
      var s := Pushed(cs, path, n - 1);
      if cs[n - 1].Some? {
        var e := path + [n - 1];
        forall x | x in s ensures Under(x, path, n) && Apart(x.path, e) {
          assert Under(x, path, n - 1);
          assert x.path[|path|] != e[|path|];
        }
        assert Pushed(cs, path, n) == s + [Entry(cs[n - 1].value, e)];
      } else {
        assert Pushed(cs, path, n) == s;
      }
    }
  }

  lemma {:induction false} PushedCount(cs: Slots<Node>, path: Key, n: nat)
    requires n <= 16
    ensures StackCount(Pushed(cs, path, n)) == KidsCount(cs[..n])
  {
    if n > 0 {
      PushedCount(cs, path, n - 1);
      var s := Pushed(cs, path, n - 1);
      assert cs[..n][..n - 1] == cs[..n - 1];
      if cs[n - 1].Some? {
        var e := Entry(cs[n - 1].value, path + [n - 1]);
        assert (s + [e])[..|s|] == s;
      } else {
        assert Pushed(cs, path, n) == s;
      }
    }
  }

  lemma {:induction false} PushedSees(cs: Slots<Node>, path: Key, n: nat, k: Key, v: Value)
    requires n <= 16
    ensures Pending(Pushed(cs, path, n), k, v) <==> Sees(Entry(Branch(cs), path), k, v) && k[|path|] < n
  {
    if n > 0 {
      PushedSees(cs, path, n - 1, k, v);
      var s := Pushed(cs, path, n - 1);
      if cs[n - 1].Some? {
        var e := Entry(cs[n - 1].value, path + [n - 1]);
        PendingConcat(s, [e], k, v);
        assert Pending([e], k, v) <==> Sees(e, k, v) by { assert [e][0] == e; }
        if path <= k && |path| < |k| {
          assert k[|path|..][1..] == k[|path| + 1..];
          assert k[..|path| + 1] == path + [k[|path|]];
        }
      } else {
        assert Pushed(cs, path, n) == s;
      }
    }
  }

  lemma BranchReplaced(cs: Slots<Node>, path: Key)
    ensures var news := Pushed(cs, path, 16);
            && (forall k: Key, v: Value :: Pending(news, k, v) <==> Sees(Entry(Branch(cs), path), k, v))
            && StackCount(news) < NodeCount(Branch(cs))
  {
    hide Pending, GetNibs;
    forall k: Key, v: Value ensures Pending(Pushed(cs, path, 16), k, v) <==> Sees(Entry(Branch(cs), path), k, v) {
      PushedSees(cs, path, 16, k, v);
      BranchSees(cs, path, k, v);
    }
    PushedCount(cs, path, 16);
    assert cs[..16] == cs;
  }

  lemma BranchSees(cs: Slots<Node>, path: Key, k: Key, v: Value)
    ensures Sees(Entry(Branch(cs), path), k, v) ==> |path| < |k|
  {
  }

  lemma ExtensionReplaced(prefix: Path, child: Node, path: Key)
    ensures forall k: Key, v: Value ::
              Pending([Entry(child, path + PrefixNibs(prefix))], k, v)
              <==> Sees(Entry(Extension(prefix, child), path), k, v)
  {
    hide PrefixNibs;
    var nibs := PrefixNibs(prefix);
    var e := Entry(child, path + nibs);
    forall k: Key, v: Value ensures Pending([e], k, v) <==> Sees(Entry(Extension(prefix, child), path), k, v) {
      assert Pending([e], k, v) <==> Sees(e, k, v) by { assert [e][0] == e; }
      if path <= k {
        assert k == path + k[|path|..];
        if nibs <= k[|path|..] {
          assert k[|path|..][|nibs|..] == k[|path + nibs|..];
          assert k == path + nibs + k[|path + nibs|..];
        }
        if path + nibs <= k { assert k[|path|..][..|nibs|] == nibs; }
      } else {
        assert path <= path + nibs;
      }
    }
  }

  // ----- Packed keys -----

  datatype Call = Call(key: seq<byte>, value: Value)

  /** Two nibbles to a byte; a last one alone fills the high half. */
  function PackPath(nibs: Key): seq<byte>
  {
    if |nibs| % 2 == 0 then Pack(nibs) else Pack(nibs + [0])
  }

  ghost predicate Packed(out: seq<Pair>, calls: seq<Call>)
  {
    |calls| == |out| && forall i :: 0 <= i < |out| ==> calls[i] == Call(PackPath(out[i].key), out[i].value)
  }

  /** With keys of whole bytes the callback is given exactly the key and value pairs of the trie, each key
      once. */
  lemma PackedCalls(root: Node, out: seq<Pair>, calls: seq<Call>, key: seq<byte>, v: Value)
    requires forall k: Key, v: Value :: Pair(k, v) in out <==> GetNibs(root, k) == Ok(Some(v))
    requires forall i, j :: 0 <= i < j < |out| ==> out[i].key != out[j].key
    requires Packed(out, calls) && forall i :: 0 <= i < |out| ==> |out[i].key| % 2 == 0
    ensures Call(key, v) in calls <==> GetNibs(root, Nibbles(key)) == Ok(Some(v))
    ensures forall i, j :: 0 <= i < j < |calls| ==> calls[i].key != calls[j].key
  {
    hide GetNibs, Nibbles, Pack;
    PackOfNibbles(key);
    forall i | 0 <= i < |out| ensures Nibbles(calls[i].key) == out[i].key { NibblesOfPack(out[i].key); }
    if Call(key, v) in calls {
      var i :| 0 <= i < |calls| && calls[i] == Call(key, v);
      assert out[i] == Pair(Nibbles(key), v);
      assert Pair(Nibbles(key), v) in out;
    }
    if GetNibs(root, Nibbles(key)) == Ok(Some(v)) {
      assert Pair(Nibbles(key), v) in out;
      var i :| 0 <= i < |out| && out[i] == Pair(Nibbles(key), v);
      assert calls[i] == Call(key, v);
    }
  }

  lemma BranchExpanded(root: Node, rest: seq<Entry>, cs: Slots<Node>, path: Key, out: seq<Pair>)
    requires Inv(root, rest + [Entry(Branch(cs), path)], out)
    ensures var after := rest + Pushed(cs, path, 16);
            Inv(root, after, out) && StackCount(after) < StackCount(rest + [Entry(Branch(cs), path)])
  {
    hide PrefixNibs, GetNibs, Inv, Pending, NodeCount, Pushed, Apart, Sees;
    var top, news := Entry(Branch(cs), path), Pushed(cs, path, 16);
    BranchReplaced(cs, path);
    PushedBelow(cs, path);
    ReplaceTop(root, rest, top, news, out);
    StackCountConcat(rest, news);
    StackCountConcat(rest, [top]);
  }

  lemma PushedBelow(cs: Slots<Node>, path: Key)
    ensures var news := Pushed(cs, path, 16);
            && (forall i :: 0 <= i < |news| ==> path <= news[i].path)
            && (forall i, j :: 0 <= i < j < |news| ==> Apart(news[i].path, news[j].path))
  {
    hide Pushed, Apart;
    var news := Pushed(cs, path, 16);
    PushedFacts(cs, path, 16);
    assert forall i :: 0 <= i < |news| ==> news[i] in news && Under(news[i], path, 16);
  }

  lemma ExtensionExpanded(root: Node, rest: seq<Entry>, prefix: Path, child: Node, path: Key, out: seq<Pair>)
    requires Inv(root, rest + [Entry(Extension(prefix, child), path)], out)
    ensures var after := rest + [Entry(child, path + PrefixNibs(prefix))];
            Inv(root, after, out) && StackCount(after) < StackCount(rest + [Entry(Extension(prefix, child), path)])
  {
    hide PrefixNibs, GetNibs, Inv, Pending;
    var top, e := Entry(Extension(prefix, child), path), Entry(child, path + PrefixNibs(prefix));
    ExtensionReplaced(prefix, child, path);
    ReplaceTop(root, rest, top, [e], out);
    StackCountConcat(rest, [e]);
    StackCountConcat(rest, [top]);
  }

  lemma TopDropped(rest: seq<Entry>, top: Entry)
    ensures StackCount(rest) < StackCount(rest + [top])
  {
    StackCountConcat(rest, [top]);
  }

  /** Visits every key and value the trie can look up, each once, and hands the packed key to the callback. */
  method ForEachLeaves(root: Node) returns (out: seq<Pair>, calls: seq<Call>)
    ensures forall k: Key, v: Value :: Pair(k, v) in out <==> GetNibs(root, k) == Ok(Some(v))
    ensures forall i, j :: 0 <= i < j < |out| ==> out[i].key != out[j].key
    ensures Packed(out, calls)
  {
    hide PrefixNibs, GetNibs, Inv, Pending, Pushed, StackCount;
    var stack := [Entry(root, [])];
    out, calls := [], [];
    InvStart(root);
    while stack != []
      invariant Inv(root, stack, out) && Packed(out, calls)
      decreases StackCount(stack)
    {
      var top, rest := stack[|stack| - 1], stack[..|stack| - 1];
      assert stack == rest + [top];
      TopDropped(rest, top);
      stack := rest;
      match top.node {
        case Leaf(prefix, value) =>
          ReportTop(root, rest, top, out);
          var path := top.path + PrefixNibs(prefix);
          out := out + [Pair(path, value)];
          calls := calls + [Call(PackPath(path), value)];
        case Extension(prefix, child) =>
          ExtensionExpanded(root, rest, prefix, child, top.path, out);
          stack := stack + [Entry(child, top.path + PrefixNibs(prefix))];
        case Branch(cs) =>
          stack := PushKids(rest, cs, top.path);
          BranchExpanded(root, rest, cs, top.path, out);
        case _ =>
          NothingBelow(top);
          ReplaceTop(root, rest, top, [], out);
          assert rest + [] == rest;
      }
    }
    InvEnd(root, out);
  }

  method PushKids(rest: seq<Entry>, cs: Slots<Node>, path: Key) returns (stack: seq<Entry>)
    ensures stack == rest + Pushed(cs, path, 16)
  {
    stack := rest;
    for i := 0 to 16
      invariant stack == rest + Pushed(cs, path, i)
    {
      if cs[i].Some? {
        stack := stack + [Entry(cs[i].value, path + [i])];
      }
    }
  }

  lemma InvStart(root: Node)
    ensures Inv(root, [Entry(root, [])], [])
  {
    var e := Entry(root, []);
    forall k: Key, v: Value ensures Pending([e], k, v) <==> GetNibs(root, k) == Ok(Some(v)) {
      assert k[0..] == k;
      assert Sees(e, k, v) <==> GetNibs(root, k) == Ok(Some(v));
      assert [e][0] == e;
    }
  }

  lemma InvEnd(root: Node, out: seq<Pair>)
    requires Inv(root, [], out)
    ensures forall k: Key, v: Value :: Pair(k, v) in out <==> GetNibs(root, k) == Ok(Some(v))
    ensures forall i, j :: 0 <= i < j < |out| ==> out[i].key != out[j].key
  {
  }

  lemma NothingBelow(e: Entry)
    requires e.node.Null? || e.node.Digest?
    ensures forall k: Key, v: Value :: Pending([], k, v) <==> Sees(e, k, v)
  {
  }
}
