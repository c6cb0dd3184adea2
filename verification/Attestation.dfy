/** The attestation document: what `parse_attestation_doc` reads, and that it depends on the document
    alone, not on how the document was encoded or ordered. */
module Attestation {
  import opened Bytes
  import opened Cbor

  // ----- The document -----

  datatype Doc =
    | Number(major: nat, n: nat)
    | Text(major: nat, bytes: Bs)
    | List(items: seq<Doc>)
    | Map(entries: seq<Entry>)
    | Odd(major: nat)
  datatype Entry = Entry(key: Doc, val: Doc)

  function DocOf(e: Enc): Doc
    decreases e, 0
  {
    match e
    case Num(major, _, n) => Number(major, n)
    case Str(major, body) => Text(major, Contents(body))
    case Arr(_, items) => List(DocsOf(items))
    case Dict(_, flat) => Map(PairUp(DocsOf(flat)))
    case Loose(major) => Odd(major)
  }

  function DocsOf(es: seq<Enc>): (ds: seq<Doc>)
    ensures |ds| == |es| && forall i :: 0 <= i < |es| ==> ds[i] == DocOf(es[i])
    decreases es, 1
  {
    if es == [] then [] else [DocOf(es[0])] + DocsOf(es[1..])
  }

  /** Keys and values alternate. */
  function PairUp(ds: seq<Doc>): seq<Entry>
  {
    if |ds| < 2 then [] else [Entry(ds[0], ds[1])] + PairUp(ds[2..])
  }

  // ----- What a document says -----

  datatype Fields = Fields(pcr0: Option<Bs>, userData: Option<Bs>, timestamp: Option<nat>)

  /** A panic, or the fields that were set. */
  datatype Effect = Bad | Sets(fields: Fields)

  const NOTHING := Fields(None, None, None)
  const PCRS: Bs := [0x70, 0x63, 0x72, 0x73]
  const USER_DATA: Bs := [0x75, 0x73, 0x65, 0x72, 0x5f, 0x64, 0x61, 0x74, 0x61]
  const TIMESTAMP: Bs := [0x74, 0x69, 0x6d, 0x65, 0x73, 0x74, 0x61, 0x6d, 0x70]

  function Either<T>(a: Option<T>, b: Option<T>): Option<T>
  {
    if a.Some? then a else b
  }

  /** Both effects; setting a field twice is a panic. */
  function Join(a: Effect, b: Effect): Effect
  {
    if a.Bad? || b.Bad? then Bad
    else if (a.fields.pcr0.Some? && b.fields.pcr0.Some?)
            || (a.fields.userData.Some? && b.fields.userData.Some?)
            || (a.fields.timestamp.Some? && b.fields.timestamp.Some?) then Bad
    else Sets(Fields(Either(a.fields.pcr0, b.fields.pcr0), Either(a.fields.userData, b.fields.userData),
                     Either(a.fields.timestamp, b.fields.timestamp)))
  }

  function JoinAll(effect: Entry -> Effect, es: seq<Entry>): Effect
  {
    if es == [] then Sets(NOTHING) else Join(effect(es[0]), JoinAll(effect, es[1..]))
  }

  /** One measurement: only register 0 is kept, but every one must be a byte string under an unsigned
      number. */
  function PcrEffect(e: Entry): Effect
  {
    if !(e.key.Number? && e.key.major == 0 && e.val.Text? && e.val.major == 2) then Bad
    else if e.key.n == 0 then Sets(NOTHING.(pcr0 := Some(e.val.bytes)))
    else Sets(NOTHING)
  }

  function EntryEffect(e: Entry): Effect
  {
    if !(e.key.Text? && e.key.major == 3) then Bad
    else if e.key.bytes == PCRS then
      if e.val.Map? then JoinAll(PcrEffect, e.val.entries) else Bad
    else if e.key.bytes == USER_DATA then
      if e.val.Text? && e.val.major == 2 then Sets(NOTHING.(userData := Some(e.val.bytes))) else Bad
    else if e.key.bytes == TIMESTAMP then
      if e.val.Number? && e.val.major == 0 then Sets(NOTHING.(timestamp := Some(e.val.n))) else Bad
    else Sets(NOTHING)
  }

  datatype Attested = Attested(pcr0: Bs, userData: Bs, timestamp: nat)

  function Finish(f: Fields): Option<Attested>
  {
    if f.pcr0.Some? && f.userData.Some? && f.timestamp.Some?
    then Some(Attested(f.pcr0.value, f.userData.value, f.timestamp.value)) else None
  }

  /** The meaning of a document: its three fields, each given exactly once. */
  function Attest(d: Doc): Option<Attested>
  {
    if !d.Map? then None else
      match JoinAll(EntryEffect, d.entries)
      case Bad => None
      case Sets(f) => Finish(f)
  }

  // ----- The order of entries does not matter -----

  lemma JoinSwap(a: Effect, b: Effect, c: Effect)
    ensures Join(a, Join(b, c)) == Join(b, Join(a, c))
  {
  }

  lemma {:induction false} JoinAllPick(effect: Entry -> Effect, xs: seq<Entry>, i: nat)
    requires i < |xs|
    ensures JoinAll(effect, xs) == Join(effect(xs[i]), JoinAll(effect, xs[..i] + xs[i + 1..]))
  {
    hide Join;
    var rest := xs[..i] + xs[i + 1..];
    if i == 0 {
      assert rest == xs[1..];
    } else {
      JoinAllPick(effect, xs[1..], i - 1);
      assert rest[1..] == xs[1..][..i - 1] + xs[1..][i..];
      JoinSwap(effect(xs[0]), effect(xs[i]), JoinAll(effect, rest[1..]));
    }
  }

  lemma WithoutOne(xs: seq<Entry>, i: nat)
    requires i < |xs|
    ensures multiset(xs[..i] + xs[i + 1..]) == multiset(xs) - multiset{xs[i]}
  {
    assert xs == xs[..i] + [xs[i]] + xs[i + 1..];
  }

  lemma IndexOf(xs: seq<Entry>, x: Entry) returns (i: nat)
    requires x in multiset(xs)
    ensures i < |xs| && xs[i] == x
  {
    i :| 0 <= i < |xs| && xs[i] == x;
  }

  /** Reordering the entries of a map changes nothing. */
  lemma {:induction false} EntryOrder(effect: Entry -> Effect, xs: seq<Entry>, ys: seq<Entry>)
    requires multiset(xs) == multiset(ys)
    ensures JoinAll(effect, xs) == JoinAll(effect, ys)
    decreases |xs|
  {
    if xs == [] {
      assert |multiset(ys)| == 0;
    } else {
      hide JoinAll, Join;
      var i := IndexOf(ys, xs[0]) by { assert xs[0] in multiset(xs); }
      var rest, rest' := xs[..0] + xs[1..], ys[..i] + ys[i + 1..];
      JoinAllPick(effect, xs, 0);
      JoinAllPick(effect, ys, i);
      WithoutOne(xs, 0);
      WithoutOne(ys, i);
      EntryOrder(effect, rest, rest');
    }
  }

  predicate IsRead(key: Doc)
  {
    key.Text? && key.bytes in {PCRS, USER_DATA, TIMESTAMP}
  }

  /** The same entries, where the measurements may be reordered, and a value that is skipped may be any
      other, so one reordered at any depth. */
  ghost predicate SameEntry(a: Entry, b: Entry)
  {
    || a == b
    || (a.key == b.key && a.val.Map? && b.val.Map? && multiset(a.val.entries) == multiset(b.val.entries))
    || (a.key == b.key && !IsRead(a.key))
  }

  lemma SameEntryEffect(a: Entry, b: Entry)
    requires SameEntry(a, b)
    ensures EntryEffect(a) == EntryEffect(b)
  {
    if a != b && IsRead(a.key) { EntryOrder(PcrEffect, a.val.entries, b.val.entries); }
  }

  lemma {:induction false} SameEntries(xs: seq<Entry>, ys: seq<Entry>)
    requires |xs| == |ys| && forall i :: 0 <= i < |xs| ==> SameEntry(xs[i], ys[i])
    ensures JoinAll(EntryEffect, xs) == JoinAll(EntryEffect, ys)
  {
    hide EntryEffect, Join;
    if xs != [] {
      assert SameEntry(xs[0], ys[0]);
      SameEntryEffect(xs[0], ys[0]);
      SameEntries(xs[1..], ys[1..]);
    }
  }

  /** Documents that differ only in the order of their entries, at the top or among the measurements,
      have one meaning. */
  lemma AttestOrder(d: Doc, d': Doc, middle: seq<Entry>)
    requires d.Map? && d'.Map? && multiset(d.entries) == multiset(middle)
    requires |middle| == |d'.entries| && forall i :: 0 <= i < |middle| ==> SameEntry(middle[i], d'.entries[i])
    ensures Attest(d) == Attest(d')
  {
    EntryOrder(EntryEffect, d.entries, middle);
    SameEntries(middle, d'.entries);
  }

  // ----- The parser -----

  datatype Step = Step(fields: Fields, rest: Bs)

  function ExpectUint(s: Bs): (r: Option<(nat, Bs)>)
    ensures r.Some? ==> |r.value.1| < |s|
  {
    match HeadOf(s)
    case None => None
    case Some(h) => if h.major == 0 && h.len.Some? then Some((h.len.value, h.rest)) else None
  }

  function ExpectString(s: Bs, major: nat): (r: Option<Read>)
    ensures r.Some? ==> |r.value.rest| < |s|
  {
    match HeadOf(s)
    case None => None
    case Some(h) => if h.major == major then StrContents(h.rest, major, h.len) else None
  }

  /** A byte string; a null is refused. */
  function ExpectBstr(s: Bs): (r: Option<Read>)
    ensures r.Some? ==> |r.value.rest| < |s|
  {
    if s != [] && s[0] == 0xf6 then None else ExpectString(s, 2)
  }

  function ParsePcr(s: Bs, f: Fields): (r: Option<Step>)
    ensures r.Some? ==> |r.value.rest| < |s|
  {
    match ExpectUint(s)
    case None => None
    case Some(idx) =>
      match ExpectBstr(idx.1)
      case None => None
      case Some(val) =>
        if idx.0 != 0 then Some(Step(f, val.rest))
        else if f.pcr0.Some? then None
        else Some(Step(f.(pcr0 := Some(val.bytes)), val.rest))
  }

  /** `iter_map` over the measurements: `n` of them, or up to a break. */
  function ParsePcrs(s: Bs, n: Option<nat>, f: Fields): (r: Option<Step>)
    ensures r.Some? ==> |r.value.rest| <= |s|
    decreases |s|
  {
    if n == Some(0) then Some(Step(f, s))
    else if n.None? && AtBreak(s) then Some(Step(f, s[1..]))
    else
      match ParsePcr(s, f)
      case None => None
      case Some(st) => ParsePcrs(st.rest, if n.None? then None else Some(n.value - 1), st.fields)
  }

  function ParseEntry(s: Bs, f: Fields): (r: Option<Step>)
    ensures r.Some? ==> |r.value.rest| < |s|
  {
    match ExpectString(s, 3)
    case None => None
    case Some(key) =>
      if key.bytes == PCRS then
        match HeadOf(key.rest)
        case None => None
        case Some(h) => if h.major == 5 then ParsePcrs(h.rest, h.len, f) else None
      else if key.bytes == USER_DATA then
        match ExpectBstr(key.rest)
        case None => None
        case Some(v) => if f.userData.Some? then None else Some(Step(f.(userData := Some(v.bytes)), v.rest))
      else if key.bytes == TIMESTAMP then
        match ExpectUint(key.rest)
        case None => None
        case Some(v) => if f.timestamp.Some? then None else Some(Step(f.(timestamp := Some(v.0)), v.1))
      else
        match Skip(key.rest)
        case None => None
        case Some(rest) => Some(Step(f, rest))
  }

  function ParseEntries(s: Bs, n: Option<nat>, f: Fields): (r: Option<Step>)
    decreases |s|
  {
    if n == Some(0) then Some(Step(f, s))
    else if n.None? && AtBreak(s) then Some(Step(f, s[1..]))
    else
      match ParseEntry(s, f)
      case None => None
      case Some(st) => ParseEntries(st.rest, if n.None? then None else Some(n.value - 1), st.fields)
  }

  function ParseAttestation(s: Bs): Option<Attested>
  {
    match HeadOf(s)
    case None => None
    case Some(h) =>
      if h.major != 5 then None else
        match ParseEntries(h.rest, h.len, NOTHING)
        case None => None
        case Some(st) => Finish(st.fields)
  }

  // ----- Any encoding of a document is read as the document -----

  /** What the parser does with an effect. */
  function Outcome(f: Fields, e: Effect, rest: Bs): Option<Step>
  {
    match Join(Sets(f), e) case Bad => None case Sets(g) => Some(Step(g, rest))
  }

  lemma UintRead(e: Enc, rest: Bs)
    requires WellEncoded(e)
    ensures var d := DocOf(e);
            ExpectUint(Encoded(e) + rest) == if d.Number? && d.major == 0 then Some((d.n, rest)) else None
  {
    hide HeadOf, HeadBytes, EncodedAll, Chunks;
    match e
    case Num(major, w, n) => HeadRoundTrip(major, w, n, rest);
    case Str(_, _) => StringRead(e, rest);
    case Arr(w, items) => ContainerBytes(e, rest); ContainerHead(4, w, |items|, items, rest);
    case Dict(w, flat) => ContainerBytes(e, rest); ContainerHead(5, w, |flat| / 2, flat, rest);
    case Loose(major) => OpenHeadReads(major, rest);
  }

  lemma TextRead(e: Enc, major: nat, rest: Bs)
    requires WellEncoded(e) && 2 <= major <= 3
    ensures var d := DocOf(e);
            ExpectString(Encoded(e) + rest, major)
            == if d.Text? && d.major == major then Some(Read(d.bytes, rest)) else None
  {
    hide HeadOf, HeadBytes, EncodedAll, Chunks, StrContents;
    match e
    case Num(m, w, n) => HeadRoundTrip(m, w, n, rest);
    case Str(_, _) => StringRead(e, rest);
    case Arr(w, items) => ContainerBytes(e, rest); ContainerHead(4, w, |items|, items, rest);
    case Dict(w, flat) => ContainerBytes(e, rest); ContainerHead(5, w, |flat| / 2, flat, rest);
    case Loose(major) => OpenHeadReads(major, rest);
  }

  lemma BstrRead(e: Enc, rest: Bs)
    requires WellEncoded(e)
    ensures var d := DocOf(e);
            ExpectBstr(Encoded(e) + rest) == if d.Text? && d.major == 2 then Some(Read(d.bytes, rest)) else None
  {
    hide HeadOf, Encoded, StrContents;
    TextRead(e, 2, rest);
    EncodedFirst(e, rest);
    var s := Encoded(e) + rest;
    if s[0] == 0xf6 { NullHead(s); }
  }

  /** 0xf6 begins an item of major type 7. */
  lemma NullHead(s: Bs)
    requires s != [] && s[0] == 0xf6
    ensures HeadOf(s).Some? && HeadOf(s).value.major == 7
  {
  }

  lemma {:induction false} EncodedTwo(es: seq<Enc>, rest: Bs)
    requires |es| >= 2 && forall i :: 0 <= i < |es| ==> WellEncoded(es[i])
    ensures EncodedAll(es) + rest == Encoded(es[0]) + (Encoded(es[1]) + (EncodedAll(es[2..]) + rest))
    ensures PairUp(DocsOf(es)) == [Entry(DocOf(es[0]), DocOf(es[1]))] + PairUp(DocsOf(es[2..]))
  {
    hide Encoded;
    assert es[1..][1..] == es[2..];
    assert EncodedAll(es[1..]) == Encoded(es[1]) + EncodedAll(es[2..]);
    assert DocsOf(es)[2..] == DocsOf(es[2..]);
  }

  lemma PcrRead(k: Enc, v: Enc, rest: Bs, f: Fields)
    requires WellEncoded(k) && WellEncoded(v)
    ensures ParsePcr(Encoded(k) + (Encoded(v) + rest), f) == Outcome(f, PcrEffect(Entry(DocOf(k), DocOf(v))), rest)
  {
    hide Encoded, DocOf, ExpectUint, ExpectBstr;
    UintRead(k, Encoded(v) + rest);
    BstrRead(v, rest);
  }

  /** The tail that closes a map: nothing, or a break. */
  function Close(n: Option<nat>): Bs
  {
    if n.Some? then [] else BREAK
  }

  function Less(n: Option<nat>): Option<nat>
  {
    if n.None? || n.value == 0 then n else Some(n.value - 1)
  }

  lemma SameClose(n: Option<nat>)
    ensures Close(Less(n)) == Close(n)
  {
  }

  lemma OutcomeChain(f: Fields, a: Effect, b: Effect, mid: Bs, rest: Bs)
    ensures Outcome(f, Join(a, b), rest)
         == match Outcome(f, a, mid) case None => None case Some(st) => Outcome(st.fields, b, rest)
  {
  }

  lemma OutcomeNothing(f: Fields, rest: Bs)
    ensures Outcome(f, Sets(NOTHING), rest) == Some(Step(f, rest))
  {
  }

  lemma ParsePcrsEnd(n: Option<nat>, rest: Bs, f: Fields)
    requires n.Some? ==> n.value == 0
    ensures ParsePcrs(Close(n) + rest, n, f) == Some(Step(f, rest))
  {
    assert n.None? ==> (BREAK + rest)[1..] == rest;
    assert n.Some? ==> [] + rest == rest;
  }

  lemma ParsePcrsFirst(s: Bs, n: Option<nat>, f: Fields)
    requires n != Some(0) && !AtBreak(s)
    ensures ParsePcrs(s, n, f)
         == match ParsePcr(s, f) case None => None case Some(st) => ParsePcrs(st.rest, Less(n), st.fields)
  {
  }

  lemma {:induction false} PcrsRead(es: seq<Enc>, n: Option<nat>, rest: Bs, f: Fields)
    requires |es| % 2 == 0 && (n.Some? ==> n.value == |es| / 2) && forall i :: 0 <= i < |es| ==> WellEncoded(es[i])
    ensures ParsePcrs(EncodedAll(es) + (Close(n) + rest), n, f)
         == Outcome(f, JoinAll(PcrEffect, PairUp(DocsOf(es))), rest)
    decreases |es|
  {
    hide Encoded, ParsePcr, ParsePcrs, PcrEffect, Outcome, Join, DocOf, WellEncoded, Close, AtBreak;
    var tail := Close(n) + rest;
    var s := EncodedAll(es) + tail;
    if es == [] {
      OutcomeNothing(f, rest);
      assert s == tail;
      ParsePcrsEnd(n, rest, f);
    } else {
      EncodedTwo(es, tail);
      var more := EncodedAll(es[2..]) + tail;
      PcrRead(es[0], es[1], more, f);
      EncodedFirst(es[0], Encoded(es[1]) + more);
      ParsePcrsFirst(s, n, f);
      var head := PcrEffect(Entry(DocOf(es[0]), DocOf(es[1])));
      var others := JoinAll(PcrEffect, PairUp(DocsOf(es[2..])));
      OutcomeChain(f, head, others, more, rest);
      if Outcome(f, head, more).Some? {
        OutcomeRest(f, head, more);
        SameClose(n);
        PcrsRead(es[2..], Less(n), rest, Outcome(f, head, more).value.fields);
      }
    }
  }

  lemma OutcomeRest(f: Fields, e: Effect, rest: Bs)
    requires Outcome(f, e, rest).Some?
    ensures Outcome(f, e, rest).value.rest == rest
  {
  }

  lemma EntryRead(k: Enc, v: Enc, rest: Bs, f: Fields)
    requires WellEncoded(k) && WellEncoded(v)
    ensures ParseEntry(Encoded(k) + (Encoded(v) + rest), f) == Outcome(f, EntryEffect(Entry(DocOf(k), DocOf(v))), rest)
  {
    hide Encoded, ExpectString, ExpectUint, ExpectBstr, Skip, HeadOf, ParsePcrs, JoinAll, DocOf;
    TextRead(k, 3, Encoded(v) + rest);
    UintRead(v, rest);
    BstrRead(v, rest);
    SkipEncoded(v, rest);
    PcrsValueRead(v, rest, f);
  }

  /** The value under the measurements key. */
  lemma PcrsValueRead(v: Enc, rest: Bs, f: Fields)
    requires WellEncoded(v)
    ensures var d, h := DocOf(v), HeadOf(Encoded(v) + rest);
            && h.Some? && (h.value.major == 5 <==> d.Map?)
            && (d.Map? ==> ParsePcrs(h.value.rest, h.value.len, f) == Outcome(f, JoinAll(PcrEffect, d.entries), rest))
  {
    hide HeadOf, HeadBytes, EncodedAll, Chunks, StrContents, ParsePcrs, JoinAll, Outcome;
    match v
    case Num(major, w, n) => HeadRoundTrip(major, w, n, rest);
    case Str(_, _) => StringRead(v, rest);
    case Arr(w, items) => ContainerBytes(v, rest); ContainerHead(4, w, |items|, items, rest);
    case Dict(w, flat) =>
      ContainerBytes(v, rest);
      ContainerHead(5, w, |flat| / 2, flat, rest);
      var n := if w.Some? then Some(|flat| / 2) else None;
      PcrsRead(flat, n, rest, f);
      CloseBytes(EncodedAll(flat), n, rest);
    case Loose(major) => OpenHeadReads(major, rest);
  }

  lemma CloseBytes(body: Bs, n: Option<nat>, rest: Bs)
    ensures body + (Close(n) + rest) == if n.Some? then body + rest else body + BREAK + rest
  {
  }

  lemma ParseEntriesEnd(n: Option<nat>, rest: Bs, f: Fields)
    requires n.Some? ==> n.value == 0
    ensures ParseEntries(Close(n) + rest, n, f) == Some(Step(f, rest))
  {
    assert n.None? ==> (BREAK + rest)[1..] == rest;
    assert n.Some? ==> [] + rest == rest;
  }

  lemma ParseEntriesFirst(s: Bs, n: Option<nat>, f: Fields)
    requires n != Some(0) && !AtBreak(s)
    ensures ParseEntries(s, n, f)
         == match ParseEntry(s, f) case None => None case Some(st) => ParseEntries(st.rest, Less(n), st.fields)
  {
  }

  lemma {:induction false} EntriesRead(es: seq<Enc>, n: Option<nat>, rest: Bs, f: Fields)
    requires |es| % 2 == 0 && (n.Some? ==> n.value == |es| / 2) && forall i :: 0 <= i < |es| ==> WellEncoded(es[i])
    ensures ParseEntries(EncodedAll(es) + (Close(n) + rest), n, f)
         == Outcome(f, JoinAll(EntryEffect, PairUp(DocsOf(es))), rest)
    decreases |es|
  {
    hide Encoded, ParseEntry, ParseEntries, EntryEffect, Outcome, Join, DocOf, WellEncoded, Close, AtBreak;
    var tail := Close(n) + rest;
    var s := EncodedAll(es) + tail;
    if es == [] {
      OutcomeNothing(f, rest);
      assert s == tail;
      ParseEntriesEnd(n, rest, f);
    } else {
      EncodedTwo(es, tail);
      var more := EncodedAll(es[2..]) + tail;
      EntryRead(es[0], es[1], more, f);
      EncodedFirst(es[0], Encoded(es[1]) + more);
      ParseEntriesFirst(s, n, f);
      var head := EntryEffect(Entry(DocOf(es[0]), DocOf(es[1])));
      var others := JoinAll(EntryEffect, PairUp(DocsOf(es[2..])));
      OutcomeChain(f, head, others, more, rest);
      if Outcome(f, head, more).Some? {
        OutcomeRest(f, head, more);
        SameClose(n);
        EntriesRead(es[2..], Less(n), rest, Outcome(f, head, more).value.fields);
      }
    }
  }

  /** Whatever way a document without tags is encoded, parsing it gives what the document says, and
      panics exactly when the document does not say it. */
  lemma ParseIsAttest(e: Enc, rest: Bs)
    requires WellEncoded(e)
    ensures ParseAttestation(Encoded(e) + rest) == Attest(DocOf(e))
  {
    hide HeadOf, HeadBytes, EncodedAll, Chunks, StrContents, ParseEntries, JoinAll, Join;
    match e
    case Num(major, w, n) => HeadRoundTrip(major, w, n, rest);
    case Str(_, _) => StringRead(e, rest);
    case Arr(w, items) => ContainerBytes(e, rest); ContainerHead(4, w, |items|, items, rest);
    case Dict(w, flat) =>
      ContainerBytes(e, rest);
      ContainerHead(5, w, |flat| / 2, flat, rest);
      var n := if w.Some? then Some(|flat| / 2) else None;
      CloseBytes(EncodedAll(flat), n, rest);
      EntriesRead(flat, n, rest, NOTHING);
      NothingFirst(JoinAll(EntryEffect, PairUp(DocsOf(flat))));
    case Loose(major) => OpenHeadReads(major, rest);
  }

  /** Two encodings of one document, with any choice of widths, lengths and entry order, are read alike. */
  lemma EncodingIndependent(e: Enc, e': Enc, middle: seq<Entry>, rest: Bs, rest': Bs)
    requires WellEncoded(e) && WellEncoded(e') && DocOf(e).Map? && DocOf(e').Map?
    requires multiset(DocOf(e).entries) == multiset(middle) && |middle| == |DocOf(e').entries|
    requires forall i :: 0 <= i < |middle| ==> SameEntry(middle[i], DocOf(e').entries[i])
    ensures ParseAttestation(Encoded(e) + rest) == ParseAttestation(Encoded(e') + rest')
  {
    hide ParseAttestation, Attest, Encoded, DocOf, WellEncoded, SameEntry;
    ParseIsAttest(e, rest);
    ParseIsAttest(e', rest');
    AttestOrder(DocOf(e), DocOf(e'), middle);
  }

  lemma NothingFirst(e: Effect)
    ensures Join(Sets(NOTHING), e) == e
  {
  }
}
