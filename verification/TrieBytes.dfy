/** Which bytes are decoded, as nodes and as accounts: exactly those that are written down here, with the RLP of the
    Yellow Paper and without reference to the decoder. */
module TrieBytes {
  import opened Bytes
  import opened HexPrefix
  import opened Rlp
  import opened RlpExact
  import opened Mpt
  import opened TrieMap
  import opened TrieCodec
  import opened StateUpdate
  import opened YellowPaper
  import opened WorldState

  // ----- Nodes -----

  /** A node as bytes: its children in full, not by reference. */
  function Written(n: Node): seq<byte>
    decreases n, 0
  {
    match n
    case Null => [0x80]
    case Leaf(prefix, value) => RlpList(RlpBytes(prefix) + RlpBytes(value))
    case Extension(prefix, child) => RlpList(RlpBytes(prefix) + Written(child))
    case Branch(cs) => RlpList(WrittenKids(cs) + [0x80])
    case Digest(d) => [0xa0] + d
  }

  function WrittenKids(cs: seq<Option<Node>>): seq<byte>
    decreases cs, 1
  {
    if cs == [] then [] else WrittenKid(cs[0]) + WrittenKids(cs[1..])
  }

  function WrittenKid(c: Option<Node>): seq<byte>
    decreases c, 1
  {
    if c.None? then [0x80] else Written(c.value)
  }

  /** The flags in the paths say what the nodes are, no child is written that is not there, and lengths are machine
      words. */
  ghost predicate Writable(n: Node)
  {
    match n
    case Leaf(prefix, value) =>
      && (prefix[0] / 32) % 2 == 1 && |prefix| < WORD && |value| < WORD
      && |RlpBytes(prefix) + RlpBytes(value)| < WORD
    case Extension(prefix, child) =>
      && (prefix[0] / 32) % 2 == 0 && |prefix| < WORD && Writable(child)
      && |RlpBytes(prefix) + Written(child)| < WORD
    case Branch(cs) =>
      && (forall i: nibble :: Occupied(cs, i) ==> !cs[i].value.Null? && Writable(cs[i].value))
      && |WrittenKids(cs) + [0x80]| < WORD
    case _ => true
  }

  /** Whatever bytes are decoded begin with the node written down. */
  lemma {:induction false} DecodedIsWritten(b: seq<byte>)
    requires b != [] && Decode(b).Some?
    ensures Writable(Decode(b).value) && Written(Decode(b).value) == FirstItem(b)
    decreases |b|, 1
  {
    hide ParseHeader, Items, RlpBytes, RlpList, EncodeString, EncodeList, Written, Writable;
    HeaderExact(b);
    var h, payload := ParseHeader(b).value, FirstPayload(b);
    if h.list {
      EncodeListIs(payload);
      ItemsExact(payload);
      var items := Items(payload).value;
      if |items| == 2 {
        JoinedTwo(items);
        PairIsWritten(items[0], items[1]);
      } else {
        JoinedSplit(items[..16], items[16]);
        assert items[..16] + [items[16]] == items;
        StringExact(items[16]);
        EmptyString();
        KidsAreWritten(items[..16], |b|, payload);
      }
    } else {
      OneString(payload, Decode(b).value);
    }
  }

  lemma StringExact(item: seq<byte>)
    requires IsItem(item) && StringOf(item).Some?
    ensures var s := StringOf(item).value; |s| < WORD && item == RlpBytes(s)
  {
    hide ParseHeader, EncodeString, RlpBytes;
    StringOfExact(item);
    EncodeStringIs(StringOf(item).value);
  }

  lemma EmptyString()
    ensures RlpBytes([]) == [0x80]
  {
  }

  lemma OneString(payload: seq<byte>, n: Node)
    requires (|payload| == 0 && n == Null) || (|payload| == 32 && n == Digest(payload))
    ensures Writable(n) && Written(n) == EncodeString(payload)
  {
  }

  lemma {:induction false} PairIsWritten(first: seq<byte>, second: seq<byte>)
    requires IsItem(first) && IsItem(second) && |first + second| < WORD && DecodePair(first, second).Some?
    ensures var n := DecodePair(first, second).value; Writable(n) && Written(n) == RlpList(first + second)
    decreases |second|, 2
  {
    hide ParseHeader, Items, RlpBytes, RlpList;
    StringExact(first);
    if DecodePair(first, second).value.Leaf? {
      StringExact(second);
    } else {
      DecodedIsWritten(second);
      assert FirstItem(second) == second;
    }
  }

  lemma {:induction false} KidsAreWritten(items: seq<seq<byte>>, bound: nat, payload: seq<byte>)
    requires |items| == 16 && forall i :: 0 <= i < |items| ==> |items[i]| < bound && IsItem(items[i])
    requires DecodeKids(items, bound).Some? && payload == Joined(items) + [0x80] && |payload| < WORD
    ensures var n: Node := Branch(DecodeKids(items, bound).value); Writable(n) && Written(n) == RlpList(payload)
    decreases bound, 0
  {
    hide ParseHeader, Items, Decode, DecodeKids, RlpBytes, RlpList, IsItem;
    var cs: Slots<Node> := DecodeKids(items, bound).value;
    forall i: nibble ensures items[i] == WrittenKid(cs[i])
                         && (Occupied(cs, i) ==> !cs[i].value.Null? && Writable(cs[i].value))
    {
      assert DecodeKid(items[i]) == Some(cs[i]);
      KidIsWritten(items[i]);
    }
    KidsJoined(items, cs);
  }

  lemma {:induction false} KidsJoined(items: seq<seq<byte>>, cs: seq<Option<Node>>)
    requires |items| == |cs| && forall i :: 0 <= i < |cs| ==> items[i] == WrittenKid(cs[i])
    ensures Joined(items) == WrittenKids(cs)
  {
    hide Written;
    if cs != [] { KidsJoined(items[1..], cs[1..]); }
  }

  lemma {:induction false} KidIsWritten(item: seq<byte>)
    requires IsItem(item) && DecodeKid(item).Some?
    ensures var c := DecodeKid(item).value;
            item == WrittenKid(c) && (c.Some? ==> !c.value.Null? && Writable(c.value))
    decreases |item|, 2
  {
    hide ParseHeader, Items, RlpBytes, Decode, Written, Writable;
    if StringOf(item) == Some([]) {
      StringExact(item);
      EmptyString();
    } else {
      DecodedIsWritten(item);
      DecodeTagged(item);
      assert FirstItem(item) == item;
    }
  }

  lemma WrittenIsItem(n: Node)
    requires Writable(n)
    ensures IsItem(Written(n)) && (StringOf(Written(n)) == Some([]) ==> n.Null?)
  {
    hide ParseHeader, RlpBytes, RlpList, EncodeList, EncodeString;
    match n
    case Null => ParseString([], []); OneString([], n);
    case Digest(d) => ParseString(d, []); OneString(d, n); StringOfEncode(d);
    case Leaf(prefix, value) => ListIsItem(RlpBytes(prefix) + RlpBytes(value));
    case Extension(prefix, child) => ListIsItem(RlpBytes(prefix) + Written(child));
    case Branch(cs) => ListIsItem(WrittenKids(cs) + [0x80]);
  }

  lemma ListIsItem(payload: seq<byte>)
    requires |payload| < WORD
    ensures IsItem(RlpList(payload)) && StringOf(RlpList(payload)).None?
  {
    hide RlpList, EncodeList;
    EncodeListIs(payload);
    ParseList(payload, []);
    assert EncodeList(payload) + [] == EncodeList(payload);
  }

  lemma StringIsItem(x: seq<byte>)
    requires |x| < WORD
    ensures IsItem(RlpBytes(x)) && StringOf(RlpBytes(x)) == Some(x)
  {
    hide RlpBytes, EncodeString;
    EncodeStringIs(x);
    ParseString(x, []);
    StringOfEncode(x);
  }

  /** A list of these items is read as these items, whatever follows it. */
  lemma ListDecodes(payload: seq<byte>, rest: seq<byte>)
    requires |payload| < WORD
    ensures var b := RlpList(payload) + rest;
            ParseHeader(b).Some? && ParseHeader(b).value.list && ParseHeader(b).value.prefix > 0
            && FirstPayload(b) == payload
  {
    hide ParseHeader;
    EncodeListIs(payload);
    ParseList(payload, rest);
    var b, e := RlpList(payload) + rest, EncodeList(payload);
    assert b[|e| - |payload|..|e|] == e[|e| - |payload|..];
  }

  /** And the bytes of a node, whatever follows them, are decoded as the node. */
  lemma {:induction false} WrittenDecodes(n: Node, rest: seq<byte>)
    requires Writable(n)
    ensures Decode(Written(n) + rest) == Some(n)
    decreases n, 1
  {
    hide ParseHeader, Items, RlpBytes, RlpList, EncodeList, EncodeString, Writable, DecodePair, DecodeKids;
    match n
    case Leaf(prefix, value) => LeafDecodes(prefix, value, rest);
    case Extension(prefix, child) => ExtensionDecodes(prefix, child, rest);
    case Branch(cs) => BranchDecodes(cs, rest);
    case _ => StringDecodes(n, rest);
  }

  lemma StringDecodes(n: Node, rest: seq<byte>)
    requires n.Null? || n.Digest?
    ensures Decode(Written(n) + rest) == Some(n)
  {
    var s: seq<byte> := if n.Null? then [] else n.digest;
    ParseString(s, rest);
    OneString(s, n);
    var b, e := Written(n) + rest, EncodeString(s);
    assert b[|e| - |s|..|e|] == s;
  }

  lemma LeafDecodes(prefix: Path, value: Value, rest: seq<byte>)
    requires Writable(Leaf(prefix, value))
    ensures Decode(Written(Leaf(prefix, value)) + rest) == Some(Leaf(prefix, value))
  {
    hide ParseHeader, Items, RlpBytes, RlpList, IsItem;
    StringIsItem(prefix);
    StringIsItem(value);
    ListDecodes(RlpBytes(prefix) + RlpBytes(value), rest);
    ItemsTwo(RlpBytes(prefix), RlpBytes(value));
  }

  lemma {:induction false} ExtensionDecodes(prefix: Path, child: Node, rest: seq<byte>)
    requires Writable(Extension(prefix, child))
    ensures Decode(Written(Extension(prefix, child)) + rest) == Some(Extension(prefix, child))
    decreases child, 2
  {
    hide ParseHeader, Items, RlpBytes, RlpList, IsItem;
    StringIsItem(prefix);
    WrittenIsItem(child);
    ListDecodes(RlpBytes(prefix) + Written(child), rest);
    ItemsTwo(RlpBytes(prefix), Written(child));
    WrittenDecodes(child, []);
    assert Written(child) + [] == Written(child);
  }

  function WrittenItems(cs: seq<Option<Node>>): (r: seq<seq<byte>>)
    ensures |r| == |cs| && forall i :: 0 <= i < |cs| ==> r[i] == WrittenKid(cs[i])
  {
    seq(|cs|, i requires 0 <= i < |cs| => WrittenKid(cs[i]))
  }

  lemma {:induction false} ItemsOfKids(cs: seq<Option<Node>>)
    requires forall i :: 0 <= i < |cs| ==> IsItem(WrittenKid(cs[i]))
    ensures Items(WrittenKids(cs) + [0x80]) == Some(WrittenItems(cs) + [[0x80]])
  {
    hide Written, WrittenKid, IsItem, ParseHeader;
    StringIsItem([]);
    EmptyString();
    if cs == [] {
      ItemsCons([0x80], []);
      assert Items([]) == Some([]) && [0x80] + [] == [0x80 as byte];
      assert WrittenKids(cs) + [0x80] == [0x80] && WrittenItems(cs) + [[0x80]] == [[0x80]] + [];
    } else {
      ItemsOfKids(cs[1..]);
      ItemsCons(WrittenKid(cs[0]), WrittenKids(cs[1..]) + [0x80]);
      assert WrittenKids(cs) + [0x80] == WrittenKid(cs[0]) + (WrittenKids(cs[1..]) + [0x80]);
      assert WrittenItems(cs) + [[0x80]] == [WrittenKid(cs[0])] + (WrittenItems(cs[1..]) + [[0x80]]);
    }
  }

  lemma {:induction false} KidDecodes(c: Option<Node>)
    requires c.Some? ==> !c.value.Null? && Writable(c.value)
    ensures IsItem(WrittenKid(c)) && DecodeKid(WrittenKid(c)) == Some(c)
    decreases c, 2
  {
    hide ParseHeader, RlpBytes, Decode, Written, Writable;
    if c.None? {
      StringIsItem([]);
      EmptyString();
    } else {
      WrittenIsItem(c.value);
      WrittenDecodes(c.value, []);
      assert Written(c.value) + [] == Written(c.value);
    }
  }

  lemma {:induction false} BranchDecodes(cs: Slots<Node>, rest: seq<byte>)
    requires Writable(Branch(cs))
    ensures Decode(Written(Branch(cs)) + rest) == Some(Branch(cs))
    decreases cs, 3
  {
    hide ParseHeader, Items, RlpBytes, RlpList, IsItem, DecodeKid, DecodeKids, WrittenKid;
    forall i: nibble ensures IsItem(WrittenKid(cs[i])) && DecodeKid(WrittenKid(cs[i])) == Some(cs[i]) {
      if cs[i].Some? { assert Occupied(cs, i); }
      KidDecodes(cs[i]);
    }
    var payload, items := WrittenKids(cs) + [0x80], WrittenItems(cs) + [[0x80]];
    ListDecodes(payload, rest);
    ItemsOfKids(cs);
    StringIsItem([]);
    EmptyString();
    var b := Written(Branch(cs)) + rest;
    var kids := DecodeKids(items[..16], |b|);
    assert items[..16] == WrittenItems(cs);
    assert kids.Some? && kids.value == cs;
  }

  /** The bytes that are decoded as this node are exactly those that begin with the node written down, and none at
      all for the empty node. */
  lemma DecodeExact(b: seq<byte>, n: Node)
    ensures Decode(b) == Some(n) <==> (b == [] && n == Null) || (Writable(n) && Written(n) <= b)
  {
    hide Written, Writable, ParseHeader;
    if b != [] && Decode(b) == Some(n) {
      DecodedIsWritten(b);
    }
    if Writable(n) && Written(n) <= b {
      WrittenDecodes(n, b[|Written(n)|..]);
      assert Written(n) + b[|Written(n)|..] == b;
    }
  }

  // ----- Accounts -----

  lemma UintExact(item: seq<byte>, width: nat)
    requires IsItem(item) && DecodeUint(item, width).Some?
    ensures item == RlpBytes(BE(DecodeUint(item, width).value))
  {
    hide ParseHeader, RlpBytes, BE, BigEndian, FromBigEndian;
    StringExact(item);
    ShortestForm(StringOf(item).value);
    BigEndianIs(DecodeUint(item, width).value);
  }

  lemma FieldsExact(items: seq<seq<byte>>)
    requires (forall i :: 0 <= i < |items| ==> IsItem(items[i])) && DecodeFields(items).Some?
    ensures var e := DecodeFields(items).value;
            RlpList(Joined(items)) == AccountRlp(e.nonce, e.balance, e.storageRoot, e.codeHash)
  {
    hide DecodeUint, RlpBytes, BE, RlpList, ParseHeader;
    UintExact(items[0], 8);
    UintExact(items[1], 32);
    StringExact(items[2]);
    StringExact(items[3]);
    JoinedSplit(items[..3], items[3]);
    JoinedSplit(items[..2], items[2]);
    JoinedTwo(items[..2]);
    assert items[..3] + [items[3]] == items && items[..2] + [items[2]] == items[..3];
  }

  /** The bytes that are decoded as this account are exactly those that begin with its nonce, balance, storage root and
      code hash written down as a list. */
  lemma AccountExact(b: seq<byte>, e: TrieAccount)
    ensures DecodeAccount(b) == Some(e) <==> AccountRlp(e.nonce, e.balance, e.storageRoot, e.codeHash) <= b
  {
    hide ParseHeader, Items, DecodeFields, RlpList, EncodeList, AccountRlp;
    var x := AccountRlp(e.nonce, e.balance, e.storageRoot, e.codeHash);
    if DecodeAccount(b) == Some(e) {
      HeaderExact(b);
      EncodeListIs(FirstPayload(b));
      ItemsExact(FirstPayload(b));
      FieldsExact(Items(FirstPayload(b)).value);
    }
    if x <= b {
      AccountBytes(e);
      AccountFirst(x, e, b[|x|..]);
      assert x + b[|x|..] == b;
    }
  }

  lemma AccountFirst(x: seq<byte>, e: TrieAccount, rest: seq<byte>)
    requires x == AccountRlp(e.nonce, e.balance, e.storageRoot, e.codeHash) && DecodeAccount(x) == Some(e)
    ensures DecodeAccount(x + rest) == Some(e)
  {
    hide ParseHeader, Items, DecodeFields, RlpList, EncodeList, RlpBytes, BE;
    var payload := RlpBytes(BE(e.nonce)) + RlpBytes(BE(e.balance)) + RlpBytes(e.storageRoot) + RlpBytes(e.codeHash);
    AccountShort(e, payload);
    ListIsItem(payload);
    ParseExtend(x, rest);
    var h := ParseHeader(x).value;
    assert (x + rest)[h.prefix..h.prefix + h.payload] == x[h.prefix..h.prefix + h.payload];
  }

  lemma AccountShort(e: TrieAccount, payload: seq<byte>)
    requires payload
          == RlpBytes(BE(e.nonce)) + RlpBytes(BE(e.balance)) + RlpBytes(e.storageRoot) + RlpBytes(e.codeHash)
    ensures |payload| < WORD
  {
    hide BE, BigEndian, RlpBytes, EncodeString;
    Pow256Word();
    Pow256Values();
    BigEndianSize(e.nonce, 8);
    BigEndianSize(e.balance, 32);
    BigEndianIs(e.nonce);
    BigEndianIs(e.balance);
    EncodeStringIs(BE(e.nonce));
    EncodeStringIs(BE(e.balance));
    EncodeStringIs(e.storageRoot);
    EncodeStringIs(e.codeHash);
    StringSize(BE(e.nonce));
    StringSize(BE(e.balance));
    StringSize(e.storageRoot);
    StringSize(e.codeHash);
  }
}
