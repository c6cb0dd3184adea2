/** What it takes for an attestation document to be read, and what is read from it, said of the document alone. */
module AttestMeaning {
  import opened Bytes
  import opened Cbor
  import opened Attestation

  // ----- What the document says -----

  /** An entry under a text key. */
  predicate Named(e: Entry, name: string)
  {
    e.key == Text(3, Ascii(name))
  }

  /** A byte string under an unsigned number. */
  predicate IsRegister(e: Entry)
  {
    e.key.Number? && e.key.major == 0 && e.val.Text? && e.val.major == 2
  }

  /** Every key is text, and the three names have values of their kind. */
  predicate WellTyped(e: Entry)
  {
    && e.key.Text? && e.key.major == 3
    && (Named(e, "user_data") ==> e.val.Text? && e.val.major == 2)
    && (Named(e, "timestamp") ==> e.val.Number? && e.val.major == 0)
    && (Named(e, "pcrs") ==>
          e.val.Map? && forall j :: 0 <= j < |e.val.entries| ==> IsRegister(e.val.entries[j]))
  }

  /** Exactly one entry has this name, and this is its value. */
  ghost predicate Once(es: seq<Entry>, name: string, v: Doc)
  {
    exists i :: 0 <= i < |es| && Named(es[i], name) && es[i].val == v
             && forall j :: 0 <= j < |es| && Named(es[j], name) ==> j == i
  }

  /** Entry `j` of entry `i`, which holds measurements, is that of register 0. */
  predicate Register0(es: seq<Entry>, i: int, j: int)
  {
    && 0 <= i < |es| && Named(es[i], "pcrs") && es[i].val.Map?
    && 0 <= j < |es[i].val.entries| && es[i].val.entries[j].key == Number(0, 0)
  }

  /** Among all the measurements exactly one is that of register 0, and this is its value. */
  ghost predicate MeasuredOnce(es: seq<Entry>, v: Bs)
  {
    exists i, j :: Register0(es, i, j) && es[i].val.entries[j].val == Text(2, v)
                && forall i', j' :: Register0(es, i', j') ==> i' == i && j' == j
  }

  ghost predicate Says(d: Doc, r: Attested)
  {
    && d.Map? && (forall i :: 0 <= i < |d.entries| ==> WellTyped(d.entries[i]))
    && Once(d.entries, "user_data", Text(2, r.userData))
    && Once(d.entries, "timestamp", Number(0, r.timestamp))
    && MeasuredOnce(d.entries, r.pcr0)
  }

  // ----- Fields set once -----

  predicate SetsOne<T>(effect: Entry -> Effect, get: Fields -> Option<T>, e: Entry)
  {
    effect(e).Sets? && get(effect(e).fields).Some?
  }

  /** The field is set by exactly one entry, to this value; or by none. */
  ghost predicate Gives<T>(effect: Entry -> Effect, get: Fields -> Option<T>, es: seq<Entry>, v: Option<T>)
  {
    match v
    case None => forall i :: 0 <= i < |es| ==> !SetsOne(effect, get, es[i])
    case Some(x) =>
      exists i :: 0 <= i < |es| && SetsOne(effect, get, es[i]) && get(effect(es[i]).fields) == Some(x)
               && forall j :: 0 <= j < |es| && SetsOne(effect, get, es[j]) ==> j == i
  }

  predicate AllSet(effect: Entry -> Effect, es: seq<Entry>)
  {
    forall i :: 0 <= i < |es| ==> effect(es[i]).Sets?
  }

  lemma GivesConsNone<T>(effect: Entry -> Effect, get: Fields -> Option<T>, es: seq<Entry>, v: Option<T>)
    requires es != [] && !SetsOne(effect, get, es[0])
    ensures Gives(effect, get, es, v) <==> Gives(effect, get, es[1..], v)
  {
    var rest := es[1..];
    hide SetsOne;
    assert forall i :: 0 <= i < |rest| ==> rest[i] == es[i + 1];
    assert forall i :: 0 < i < |es| ==> es[i] == rest[i - 1];
    if v.Some? {
      if Gives(effect, get, es, v) {
        var i :| 0 <= i < |es| && SetsOne(effect, get, es[i]) && get(effect(es[i]).fields) == v
                 && forall j :: 0 <= j < |es| && SetsOne(effect, get, es[j]) ==> j == i;
        assert SetsOne(effect, get, rest[i - 1]);
      }
      if Gives(effect, get, rest, v) {
        var i :| 0 <= i < |rest| && SetsOne(effect, get, rest[i]) && get(effect(rest[i]).fields) == v
                 && forall j :: 0 <= j < |rest| && SetsOne(effect, get, rest[j]) ==> j == i;
        assert SetsOne(effect, get, es[i + 1]);
      }
    }
  }

  lemma GivesConsSome<T>(effect: Entry -> Effect, get: Fields -> Option<T>, es: seq<Entry>, v: Option<T>)
    requires es != [] && SetsOne(effect, get, es[0])
    ensures Gives(effect, get, es, v) <==> v == get(effect(es[0]).fields) && Gives(effect, get, es[1..], None)
  {
    var rest := es[1..];
    assert forall i :: 0 <= i < |rest| ==> rest[i] == es[i + 1];
    assert forall i :: 0 < i < |es| ==> es[i] == rest[i - 1];
  }

  function Pcr0Of(f: Fields): Option<Bs> { f.pcr0 }
  function UserDataOf(f: Fields): Option<Bs> { f.userData }
  function TimestampOf(f: Fields): Option<nat> { f.timestamp }

  ghost predicate GivesAll(effect: Entry -> Effect, es: seq<Entry>, f: Fields)
  {
    && Gives(effect, Pcr0Of, es, f.pcr0) && Gives(effect, UserDataOf, es, f.userData)
    && Gives(effect, TimestampOf, es, f.timestamp)
  }

  /** The head sets the field to the value, or leaves it to the rest. */
  predicate Fit<T(==)>(h: Option<T>, v: Option<T>)
  {
    h.Some? ==> v == h
  }

  function Remainder<T>(h: Option<T>, v: Option<T>): Option<T>
  {
    if h.Some? then None else v
  }

  lemma GivesStep<T>(effect: Entry -> Effect, get: Fields -> Option<T>, es: seq<Entry>, v: Option<T>)
    requires es != [] && effect(es[0]).Sets?
    ensures var h := get(effect(es[0]).fields);
            Gives(effect, get, es, v) <==> Fit(h, v) && Gives(effect, get, es[1..], Remainder(h, v))
  {
    hide Gives;
    if get(effect(es[0]).fields).Some? {
      GivesConsSome(effect, get, es, v);
    } else {
      GivesConsNone(effect, get, es, v);
    }
  }

  predicate FitAll(h: Fields, f: Fields)
  {
    Fit(h.pcr0, f.pcr0) && Fit(h.userData, f.userData) && Fit(h.timestamp, f.timestamp)
  }

  function RemainderAll(h: Fields, f: Fields): Fields
  {
    Fields(Remainder(h.pcr0, f.pcr0), Remainder(h.userData, f.userData), Remainder(h.timestamp, f.timestamp))
  }

  lemma JoinExact(h: Fields, rest: Effect, f: Fields)
    ensures Join(Sets(h), rest) == Sets(f) <==> FitAll(h, f) && rest == Sets(RemainderAll(h, f))
  {
  }

  lemma GivesAllStep(effect: Entry -> Effect, es: seq<Entry>, f: Fields)
    requires es != [] && effect(es[0]).Sets?
    ensures var h := effect(es[0]).fields;
            GivesAll(effect, es, f) <==> FitAll(h, f) && GivesAll(effect, es[1..], RemainderAll(h, f))
  {
    hide Gives, Fit, Remainder;
    GivesStep(effect, Pcr0Of, es, f.pcr0);
    GivesStep(effect, UserDataOf, es, f.userData);
    GivesStep(effect, TimestampOf, es, f.timestamp);
  }

  lemma AllSetStep(effect: Entry -> Effect, es: seq<Entry>)
    requires es != []
    ensures AllSet(effect, es) <==> effect(es[0]).Sets? && AllSet(effect, es[1..])
  {
    assert forall i :: 0 < i < |es| ==> es[i] == es[1..][i - 1];
    assert forall i :: 0 <= i < |es| - 1 ==> es[1..][i] == es[i + 1];
  }

  /** Joining effects succeeds with these fields if and only if every effect is good and each field is set once, to
      the value given, or never. */
  lemma {:induction false} JoinAllExact(effect: Entry -> Effect, es: seq<Entry>, f: Fields)
    ensures JoinAll(effect, es) == Sets(f) <==> AllSet(effect, es) && GivesAll(effect, es, f)
  {
    hide Join, GivesAll, AllSet, FitAll, RemainderAll;
    if es == [] {
      NothingGiven(effect, f);
    } else {
      AllSetStep(effect, es);
      if effect(es[0]).Bad? {
        JoinBad(JoinAll(effect, es[1..]));
      } else {
        var h := effect(es[0]).fields;
        JoinExact(h, JoinAll(effect, es[1..]), f);
        GivesAllStep(effect, es, f);
        JoinAllExact(effect, es[1..], RemainderAll(h, f));
      }
    }
  }

  lemma JoinBad(rest: Effect)
    ensures Join(Bad, rest) == Bad
  {
  }

  lemma NothingGiven(effect: Entry -> Effect, f: Fields)
    ensures AllSet(effect, []) && (GivesAll(effect, [], f) <==> f == NOTHING)
  {
  }

  // ----- The names -----

  lemma Names()
    ensures Ascii("pcrs") == PCRS && Ascii("user_data") == USER_DATA && Ascii("timestamp") == TIMESTAMP
    ensures PCRS != USER_DATA && PCRS != TIMESTAMP && USER_DATA != TIMESTAMP
  {
    assert |PCRS| == 4 && |USER_DATA| == 9 && USER_DATA[0] != TIMESTAMP[0];
  }

  // ----- Measurements -----

  /** The measurements of one entry are good with this for register 0. */
  lemma PcrsExact(es: seq<Entry>, v: Option<Bs>)
    ensures JoinAll(PcrEffect, es) == Sets(NOTHING.(pcr0 := v))
       <==> (forall j :: 0 <= j < |es| ==> IsRegister(es[j])) && Gives(PcrEffect, Pcr0Of, es, v)
    ensures JoinAll(PcrEffect, es).Sets? ==>
      JoinAll(PcrEffect, es).fields == NOTHING.(pcr0 := JoinAll(PcrEffect, es).fields.pcr0)
  {
    hide JoinAll, Gives;
    JoinAllExact(PcrEffect, es, NOTHING.(pcr0 := v));
    PcrsOnly(es);
    if JoinAll(PcrEffect, es).Sets? {
      JoinAllExact(PcrEffect, es, JoinAll(PcrEffect, es).fields);
      OnlyNone(es, JoinAll(PcrEffect, es).fields);
    }
  }

  lemma PcrsOnly(es: seq<Entry>)
    ensures Gives(PcrEffect, UserDataOf, es, None) && Gives(PcrEffect, TimestampOf, es, None)
  {
  }

  lemma OnlyNone(es: seq<Entry>, f: Fields)
    requires GivesAll(PcrEffect, es, f)
    ensures f.userData == None && f.timestamp == None
  {
  }

  /** Register 0 among the measurements of one entry. */
  predicate Zero(es: seq<Entry>, j: int)
  {
    0 <= j < |es| && es[j].key == Number(0, 0)
  }

  lemma ZeroGives(es: seq<Entry>)
    requires forall j :: 0 <= j < |es| ==> IsRegister(es[j])
    ensures forall j :: 0 <= j < |es| ==> (SetsOne(PcrEffect, Pcr0Of, es[j]) <==> Zero(es, j))
    ensures forall j :: Zero(es, j) ==>
      PcrEffect(es[j]).Sets? && PcrEffect(es[j]).fields.pcr0 == Some(es[j].val.bytes)
  {
  }

  // ----- One entry -----

  /** The entry is good, and is under none of the three names, or sets the one field of its name. */
  lemma EntryKinds(e: Entry)
    ensures EntryEffect(e).Sets? <==> WellTyped(e) && (Named(e, "pcrs") ==> JoinAll(PcrEffect, e.val.entries).Sets?)
    ensures EntryEffect(e).Sets? ==>
      var f := EntryEffect(e).fields;
      && f.userData == (if Named(e, "user_data") then Some(e.val.bytes) else None)
      && f.timestamp == (if Named(e, "timestamp") then Some(e.val.n) else None)
      && f.pcr0 == (if Named(e, "pcrs") then JoinAll(PcrEffect, e.val.entries).fields.pcr0 else None)
  {
    hide JoinAll, Gives;
    Names();
    hide Ascii;
    if e.val.Map? {
      var es := e.val.entries;
      if JoinAll(PcrEffect, es).Sets? {
        PcrsExact(es, JoinAll(PcrEffect, es).fields.pcr0);
      }
    }
  }

  lemma UserDataGives(es: seq<Entry>, x: Bs)
    requires AllSet(EntryEffect, es)
    ensures Gives(EntryEffect, UserDataOf, es, Some(x)) <==> Once(es, "user_data", Text(2, x))
  {
    forall i | 0 <= i < |es|
      ensures SetsOne(EntryEffect, UserDataOf, es[i]) <==> Named(es[i], "user_data")
      ensures Named(es[i], "user_data") ==>
        es[i].val.Text? && es[i].val.major == 2 && UserDataOf(EntryEffect(es[i]).fields) == Some(es[i].val.bytes)
    {
      EntryKinds(es[i]);
    }
    hide SetsOne, Named, EntryEffect, UserDataOf;
  }

  lemma TimestampGives(es: seq<Entry>, x: nat)
    requires AllSet(EntryEffect, es)
    ensures Gives(EntryEffect, TimestampOf, es, Some(x)) <==> Once(es, "timestamp", Number(0, x))
  {
    forall i | 0 <= i < |es|
      ensures SetsOne(EntryEffect, TimestampOf, es[i]) <==> Named(es[i], "timestamp")
      ensures Named(es[i], "timestamp") ==>
        es[i].val.Number? && es[i].val.major == 0 && TimestampOf(EntryEffect(es[i]).fields) == Some(es[i].val.n)
    {
      EntryKinds(es[i]);
    }
    hide SetsOne, Named, EntryEffect, TimestampOf;
  }

  /** The measurement that one good entry gives, if any. */
  lemma EntryMeasures(es: seq<Entry>, i: nat)
    requires i < |es| && EntryEffect(es[i]).Sets?
    ensures var v := EntryEffect(es[i]).fields.pcr0;
            && (v.None? ==> forall j :: !Register0(es, i, j))
            && (v.Some? ==> exists j :: Register0(es, i, j) && es[i].val.entries[j].val == Text(2, v.value)
                                     && forall j' :: Register0(es, i, j') ==> j' == j)
  {
    EntryKinds(es[i]);
    hide JoinAll, EntryEffect;
    var e := es[i];
    if Named(e, "pcrs") {
      var zs := e.val.entries;
      var v := JoinAll(PcrEffect, zs).fields.pcr0;
      PcrsExact(zs, v);
      ZeroGives(zs);
      hide Named, SetsOne, PcrEffect;
      assert forall j :: Register0(es, i, j) <==> Zero(zs, j);
      if v.Some? {
        var j :| 0 <= j < |zs| && SetsOne(PcrEffect, Pcr0Of, zs[j]) && Pcr0Of(PcrEffect(zs[j]).fields) == v
                 && forall j' :: 0 <= j' < |zs| && SetsOne(PcrEffect, Pcr0Of, zs[j']) ==> j' == j;
        assert Zero(zs, j) && IsRegister(zs[j]);
        assert Register0(es, i, j);
      }
    }
  }

  lemma MeasuredGives(es: seq<Entry>, x: Bs)
    requires AllSet(EntryEffect, es)
    ensures Gives(EntryEffect, Pcr0Of, es, Some(x)) <==> MeasuredOnce(es, x)
  {
    forall i | 0 <= i < |es|
      ensures var v := EntryEffect(es[i]).fields.pcr0;
              && (v.None? ==> forall j :: !Register0(es, i, j))
              && (v.Some? ==> exists j :: Register0(es, i, j) && es[i].val.entries[j].val == Text(2, v.value)
                                       && forall j' :: Register0(es, i, j') ==> j' == j)
    {
      EntryMeasures(es, i);
    }
    hide EntryEffect, Register0;
    if Gives(EntryEffect, Pcr0Of, es, Some(x)) {
      var i :| 0 <= i < |es| && SetsOne(EntryEffect, Pcr0Of, es[i]) && Pcr0Of(EntryEffect(es[i]).fields) == Some(x)
               && forall k :: 0 <= k < |es| && SetsOne(EntryEffect, Pcr0Of, es[k]) ==> k == i;
      var j :| Register0(es, i, j) && es[i].val.entries[j].val == Text(2, x)
               && forall j' :: Register0(es, i, j') ==> j' == j;
      forall i', j' | Register0(es, i', j') ensures i' == i && j' == j {
        InRange(es, i', j');
        assert SetsOne(EntryEffect, Pcr0Of, es[i']);
      }
    }
    if MeasuredOnce(es, x) {
      var i, j :| Register0(es, i, j) && es[i].val.entries[j].val == Text(2, x)
                  && forall i', j' :: Register0(es, i', j') ==> i' == i && j' == j;
      InRange(es, i, j);
      assert SetsOne(EntryEffect, Pcr0Of, es[i]) && Pcr0Of(EntryEffect(es[i]).fields) == Some(x);
    }
  }

  lemma InRange(es: seq<Entry>, i: int, j: int)
    requires Register0(es, i, j)
    ensures 0 <= i < |es| && es[i].val.Map? && 0 <= j < |es[i].val.entries|
  {
  }

  /** Entries of the right kinds, with register 0 measured at most once in all, are good. */
  lemma MeasuredSets(es: seq<Entry>, x: Bs)
    requires (forall i :: 0 <= i < |es| ==> WellTyped(es[i])) && MeasuredOnce(es, x)
    ensures AllSet(EntryEffect, es)
  {
    forall i | 0 <= i < |es| ensures EntryEffect(es[i]).Sets? {
      EntryKinds(es[i]);
      if Named(es[i], "pcrs") {
        RegistersSet(es, i, x);
      }
    }
  }

  lemma RegistersSet(es: seq<Entry>, i: nat, x: Bs)
    requires i < |es| && WellTyped(es[i]) && Named(es[i], "pcrs") && MeasuredOnce(es, x)
    ensures JoinAll(PcrEffect, es[i].val.entries).Sets?
  {
    hide JoinAll;
    var zs := es[i].val.entries;
    ZeroGives(zs);
    assert forall j :: Register0(es, i, j) <==> Zero(zs, j);
    hide PcrEffect, SetsOne;
    if j :| Zero(zs, j) {
      assert forall k :: Zero(zs, k) ==> k == j by {
        var a, b :| Register0(es, a, b) && forall i', j' :: Register0(es, i', j') ==> i' == a && j' == b;
        assert forall k :: Zero(zs, k) ==> Register0(es, i, k);
        assert Register0(es, i, j);
      }
      assert SetsOne(PcrEffect, Pcr0Of, zs[j]) && Pcr0Of(PcrEffect(zs[j]).fields) == Some(zs[j].val.bytes);
      assert Gives(PcrEffect, Pcr0Of, zs, Some(zs[j].val.bytes));
      PcrsExact(zs, Some(zs[j].val.bytes));
    } else {
      assert Gives(PcrEffect, Pcr0Of, zs, None);
      PcrsExact(zs, None);
    }
  }

  /** A document is read with this result if and only if it says so: it is a map under text keys whose three names
      have values of their kinds, "user_data" and "timestamp" occur once each, with these values, and register 0 is
      measured once, as this. */
  lemma AttestExact(d: Doc, r: Attested)
    ensures Attest(d) == Some(r) <==> Says(d, r)
  {
    if d.Map? {
      var es := d.entries;
      var f := Fields(Some(r.pcr0), Some(r.userData), Some(r.timestamp));
      JoinAllExact(EntryEffect, es, f);
      if AllSet(EntryEffect, es) {
        UserDataGives(es, r.userData);
        TimestampGives(es, r.timestamp);
        MeasuredGives(es, r.pcr0);
        forall i | 0 <= i < |es| ensures WellTyped(es[i]) { EntryKinds(es[i]); }
      } else if Says(d, r) {
        MeasuredSets(es, r.pcr0);
      }
      hide JoinAll, Gives, Once, MeasuredOnce, EntryEffect, WellTyped;
      assert Attest(d) == Some(r) <==> JoinAll(EntryEffect, es) == Sets(f);
    }
  }

  /** So whatever the encoding, the parser returns this result if and only if the document says so. */
  lemma ParsedExact(e: Enc, rest: Bs, r: Attested)
    requires WellEncoded(e)
    ensures ParseAttestation(Encoded(e) + rest) == Some(r) <==> Says(DocOf(e), r)
  {
    hide ParseAttestation, Encoded, Attest, Says, DocOf;
    ParseIsAttest(e, rest);
    AttestExact(DocOf(e), r);
  }
}
