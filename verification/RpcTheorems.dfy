/** What generated code accepts, and that it reads back what it writes. */
module RpcTheorems {
  import opened Machine
  import opened RpcWire

  // ---------- Acceptance, said without reading in order ----------

  /** The payloads of the frames with one tag, in order. */
  function Payloads(fs: seq<Frame>, tag: nat): (ps: seq<Bytes>)
    ensures forall p :: p in ps ==> |p| < Weight(fs)
  {
    if fs == [] then []
    else (if fs[0].tag == tag then [fs[0].payload] else []) + Payloads(fs[1..], tag)
  }

  ghost predicate Known(es: seq<Entry>, fs: seq<Frame>) {
    forall f :: f in fs ==> Select(es, f.tag) < |es|
  }

  /** Every frame's tag is in the schema, every payload decodes, no tag but an array's repeats, and
      every required entry is there; and so on down. */
  ghost predicate Accepts(sch: Schema, c: Codec, es: seq<Entry>, fs: seq<Frame>)
    requires WellFormed(sch) && WellFormedStruct(sch, es) && Sound(c)
    decreases Weight(fs), 1
  {
    Known(es, fs) && forall i :: 0 <= i < |es| ==>
      var ps := Payloads(fs, es[i].tag);
      && (es[i].isArray || |ps| <= 1)
      && (es[i].isArray || es[i].optional || |ps| >= 1)
      && forall p :: p in ps ==> Decodes(sch, c, es[i], p)
  }

  ghost predicate Decodes(sch: Schema, c: Codec, e: Entry, b: Bytes)
    requires WellFormed(sch) && (e.kind.KStruct? ==> e.kind.refname in sch) && Sound(c)
    decreases |b|, 2
  {
    match e.kind
    case KInt => c.decInt(b).Some?
    case KInt64 => c.decInt64(b).Some?
    case KBytes(n) => |b| == n
    case KVarBytes | KString => true
    case KStruct(r) => c.decFrames(b).Some? && Accepts(sch, c, sch[r], c.decFrames(b).value)
  }

  /** The struct m0 after all of fs has been read into it. */
  ghost function Filled(sch: Schema, c: Codec, es: seq<Entry>, m0: Msg, fs: seq<Frame>): Msg
    requires WellFormed(sch) && WellFormedStruct(sch, es) && Sound(c) && |m0.fields| == |es|
  {
    Msg(seq(|es|, i requires 0 <= i < |es| => FilledField(sch, c, es[i], m0.fields[i], Payloads(fs, es[i].tag))))
  }

  ghost function FilledField(sch: Schema, c: Codec, e: Entry, f: Field, ps: seq<Bytes>): Field
    requires WellFormed(sch) && (e.kind.KStruct? ==> e.kind.refname in sch) && Sound(c)
  {
    if ps == [] then f
    else Field(true, seq(|ps|, j requires 0 <= j < |ps| => GetOr(DecValue(sch, c, e, ps[j]))))
  }

  function GetOr(v: Option<Value>): Value {
    if v.Some? then v.value else VInt(0)
  }

  // ---------- Only typed messages come out ----------

  lemma {:induction false} DecodedIsTyped(sch: Schema, c: Codec, e: Entry, b: Bytes)
    requires WellFormed(sch) && (e.kind.KStruct? ==> e.kind.refname in sch) && Sound(c)
    ensures var v := DecValue(sch, c, e, b); v.Some? ==> TypedValue(sch, e, v.value)
    decreases |b|, 2
  {
    if e.kind.KStruct? && c.decFrames(b).Some? {
      var es := sch[e.kind.refname];
      FreshIsTyped(sch, es);
      ReadIsTyped(sch, c, es, Fresh(es), c.decFrames(b).value);
    }
  }

  lemma FreshIsTyped(sch: Schema, es: seq<Entry>)
    requires WellFormed(sch) && WellFormedStruct(sch, es)
    ensures Typed(sch, es, Fresh(es))
  {
  }

  lemma StoreIsTyped(sch: Schema, es: seq<Entry>, m: Msg, i: nat, v: Value)
    requires WellFormed(sch) && WellFormedStruct(sch, es) && Typed(sch, es, m) && i < |es|
    requires TypedValue(sch, es[i], v)
    ensures Typed(sch, es, Store(es, m, i, v))
  {
    hide TypedValue, WellFormed;
  }

  /** Whatever bytes arrive, what is read into a typed struct leaves a typed one, at every depth: integers
      within their width, byte blocks of their length, strings without a NUL. */
  lemma {:induction false} ReadIsTyped(sch: Schema, c: Codec, es: seq<Entry>, m0: Msg, fs: seq<Frame>)
    requires WellFormed(sch) && WellFormedStruct(sch, es) && Sound(c) && Typed(sch, es, m0)
    ensures var r := Unmarshal(sch, c, es, m0, fs); r.Some? ==> Typed(sch, es, r.value)
    decreases Weight(fs), 1
  {
    hide Typed, Complete, Sound, WellFormed;
    SameShape(sch, es, m0);
    if fs != [] {
      var i := Select(es, fs[0].tag);
      if i < |es| && (es[i].isArray || !m0.fields[i].isSet) {
        assert es[i] in es;
        var v := DecValue(sch, c, es[i], fs[0].payload);
        DecodedIsTyped(sch, c, es[i], fs[0].payload);
        if v.Some? {
          StoreIsTyped(sch, es, m0, i, v.value);
          ReadIsTyped(sch, c, es, Store(es, m0, i, v.value), fs[1..]);
        }
      }
    }
  }

  lemma SameShape(sch: Schema, es: seq<Entry>, m: Msg)
    requires WellFormed(sch) && WellFormedStruct(sch, es) && Typed(sch, es, m)
    ensures |m.fields| == |es|
  {
  }

  // ---------- Lemmas about payloads ----------

  lemma {:induction false} PayloadsConcat(fs: seq<Frame>, gs: seq<Frame>, tag: nat)
    ensures Payloads(fs + gs, tag) == Payloads(fs, tag) + Payloads(gs, tag)
  {
    if fs == [] {
      assert fs + gs == gs;
    } else {
      assert (fs + gs)[0] == fs[0] && (fs + gs)[1..] == fs[1..] + gs;
      PayloadsConcat(fs[1..], gs, tag);
    }
  }

  lemma {:induction false} PayloadOfFrame(fs: seq<Frame>, f: Frame)
    requires f in fs
    ensures f.payload in Payloads(fs, f.tag)
  {
    if fs[0] != f { PayloadOfFrame(fs[1..], f); }
  }

  lemma SelectFinds(es: seq<Entry>, i: nat)
    requires DistinctTags(es) && i < |es|
    ensures Select(es, es[i].tag) == i
  {
  }

  // ---------- Unmarshal accepts exactly what Accepts says ----------

  /** What may already have been read without any failure. */
  ghost predicate PrefixOk(sch: Schema, c: Codec, es: seq<Entry>, fs: seq<Frame>)
    requires WellFormed(sch) && WellFormedStruct(sch, es) && Sound(c)
  {
    Known(es, fs) && forall i :: 0 <= i < |es| ==> EntryReadOk(sch, c, es[i], Payloads(fs, es[i].tag))
  }

  ghost predicate EntryReadOk(sch: Schema, c: Codec, e: Entry, ps: seq<Bytes>)
    requires WellFormed(sch) && (e.kind.KStruct? ==> e.kind.refname in sch) && Sound(c)
  {
    && (e.isArray || |ps| <= 1)
    && forall p :: p in ps ==> Decodes(sch, c, e, p) && DecValue(sch, c, e, p).Some?
  }

  lemma {:induction false} DecodesIff(sch: Schema, c: Codec, e: Entry, b: Bytes)
    requires WellFormed(sch) && (e.kind.KStruct? ==> e.kind.refname in sch) && Sound(c)
    ensures DecValue(sch, c, e, b).Some? <==> Decodes(sch, c, e, b)
    decreases |b|, 2
  {
    if e.kind.KStruct? && c.decFrames(b).Some? {
      UnmarshalExact(sch, c, sch[e.kind.refname], Fresh(sch[e.kind.refname]), c.decFrames(b).value);
    }
  }

  /** Reading into a blank struct succeeds exactly on accepted frames, and the result depends only on
      the payloads of each tag. */
  lemma {:induction false} UnmarshalExact(sch: Schema, c: Codec, es: seq<Entry>, m0: Msg, fs: seq<Frame>)
    requires WellFormed(sch) && WellFormedStruct(sch, es) && Sound(c) && Blank(es, m0)
    ensures Unmarshal(sch, c, es, m0, fs) ==
      if Accepts(sch, c, es, fs) then Some(Filled(sch, c, es, m0, fs)) else None
    decreases Weight(fs), 1
  {
    assert Filled(sch, c, es, m0, []) == m0;
    assert [] + fs == fs;
    ReadRest(sch, c, es, m0, [], fs);
  }

  lemma {:induction false} ReadRest(sch: Schema, c: Codec, es: seq<Entry>, m0: Msg, pre: seq<Frame>, rest: seq<Frame>)
    requires WellFormed(sch) && WellFormedStruct(sch, es) && Sound(c) && Blank(es, m0)
    requires PrefixOk(sch, c, es, pre)
    ensures Unmarshal(sch, c, es, Filled(sch, c, es, m0, pre), rest) ==
      if Accepts(sch, c, es, pre + rest) then Some(Filled(sch, c, es, m0, pre + rest)) else None
    decreases Weight(rest), 0
  {
    hide Sound, WellFormed, Filled, PrefixOk, Accepts, Decodes, DecValue;
    if rest == [] {
      assert pre + rest == pre;
      AllReadComplete(sch, c, es, m0, pre);
    } else {
      var f := rest[0];
      var i := Select(es, f.tag);
      assert f in pre + rest;
      assert pre + rest == (pre + [f]) + rest[1..];
      FilledSet(sch, c, es, m0, pre);
      if i == |es| {
        assert Select(es, f.tag) == |es|;
        UnknownRefused(sch, c, es, pre + rest, f);
      } else {
        DecodesIff(sch, c, es[i], f.payload);
        if (es[i].isArray || Payloads(pre, f.tag) == []) && Decodes(sch, c, es[i], f.payload) {
          StoreFills(sch, c, es, m0, pre, f);
          ReadRest(sch, c, es, m0, pre + [f], rest[1..]);
        } else {
          Refused(sch, c, es, pre, f, rest[1..]);
        }
      }
    }
  }

  lemma UnknownRefused(sch: Schema, c: Codec, es: seq<Entry>, fs: seq<Frame>, f: Frame)
    requires WellFormed(sch) && WellFormedStruct(sch, es) && Sound(c)
    requires f in fs && Select(es, f.tag) == |es|
    ensures !Accepts(sch, c, es, fs)
  {
  }

  lemma FilledSet(sch: Schema, c: Codec, es: seq<Entry>, m0: Msg, fs: seq<Frame>)
    requires WellFormed(sch) && WellFormedStruct(sch, es) && Sound(c) && Blank(es, m0)
    ensures |Filled(sch, c, es, m0, fs).fields| == |es|
    ensures forall i :: 0 <= i < |es| ==>
      (Filled(sch, c, es, m0, fs).fields[i].isSet <==> Payloads(fs, es[i].tag) != [])
  {
  }

  /** Two payloads for a scalar, or one that does not decode: not accepted. */
  lemma Refused(sch: Schema, c: Codec, es: seq<Entry>, pre: seq<Frame>, f: Frame, rest: seq<Frame>)
    requires WellFormed(sch) && WellFormedStruct(sch, es) && Sound(c) && Select(es, f.tag) < |es|
    requires var e := es[Select(es, f.tag)];
      (!e.isArray && Payloads(pre, f.tag) != []) || !Decodes(sch, c, e, f.payload)
    ensures !Accepts(sch, c, es, pre + [f] + rest)
  {
    PayloadsConcat(pre + [f], rest, f.tag);
    PayloadsConcat(pre, [f], f.tag);
    assert Payloads([f], f.tag) == [f.payload];
    assert f.payload in Payloads(pre + [f] + rest, f.tag);
  }

  lemma AllReadComplete(sch: Schema, c: Codec, es: seq<Entry>, m0: Msg, fs: seq<Frame>)
    requires WellFormed(sch) && WellFormedStruct(sch, es) && Sound(c) && Blank(es, m0)
    requires PrefixOk(sch, c, es, fs)
    ensures Complete(sch, es, Filled(sch, c, es, m0, fs)) <==> Accepts(sch, c, es, fs)
  {
    hide Accepts, Decodes, Sound, WellFormed;
    var m := Filled(sch, c, es, m0, fs);
    forall i | 0 <= i < |es|
      ensures CompleteField(sch, es[i], m.fields[i]) <==>
        es[i].isArray || es[i].optional || |Payloads(fs, es[i].tag)| >= 1
    {
      FieldComplete(sch, c, es[i], m0.fields[i], Payloads(fs, es[i].tag));
    }
    AcceptsPrefix(sch, c, es, fs);
  }

  lemma AcceptsPrefix(sch: Schema, c: Codec, es: seq<Entry>, fs: seq<Frame>)
    requires WellFormed(sch) && WellFormedStruct(sch, es) && Sound(c) && PrefixOk(sch, c, es, fs)
    ensures Accepts(sch, c, es, fs) <==>
      forall i :: 0 <= i < |es| ==> es[i].isArray || es[i].optional || |Payloads(fs, es[i].tag)| >= 1
  {
  }

  lemma FieldComplete(sch: Schema, c: Codec, e: Entry, f0: Field, ps: seq<Bytes>)
    requires WellFormed(sch) && (e.kind.KStruct? ==> e.kind.refname in sch) && Sound(c) && !f0.isSet
    requires forall p :: p in ps ==> DecValue(sch, c, e, p).Some?
    ensures CompleteField(sch, e, FilledField(sch, c, e, f0, ps)) <==> e.isArray || e.optional || |ps| >= 1
  {
    var f := FilledField(sch, c, e, f0, ps);
    if ps != [] && e.kind.KStruct? {
      forall v | v in f.items && v.VStruct? ensures Complete(sch, sch[e.kind.refname], v.m) {
        var j :| 0 <= j < |ps| && f.items[j] == v;
        assert ps[j] in ps;
      }
    }
  }

  /** One step of the loop turns the reading of pre into the reading of pre and f. */
  lemma StoreFills(sch: Schema, c: Codec, es: seq<Entry>, m0: Msg, pre: seq<Frame>, f: Frame)
    requires WellFormed(sch) && WellFormedStruct(sch, es) && Sound(c) && Blank(es, m0)
    requires PrefixOk(sch, c, es, pre) && Select(es, f.tag) < |es|
    requires var e := es[Select(es, f.tag)];
      (e.isArray || Payloads(pre, f.tag) == []) && Decodes(sch, c, e, f.payload) && DecValue(sch, c, e, f.payload).Some?
    ensures PrefixOk(sch, c, es, pre + [f])
    ensures var i := Select(es, f.tag);
      Filled(sch, c, es, m0, pre + [f]) == Store(es, Filled(sch, c, es, m0, pre), i, DecValue(sch, c, es[i], f.payload).value)
  {
    hide Decodes, DecValue, Filled, FilledField, Sound, WellFormed, PrefixOk, Payloads, Select;
    var i := Select(es, f.tag);
    PayloadsStep(es, pre, f);
    FilledAt(sch, c, es, m0, pre);
    FilledAt(sch, c, es, m0, pre + [f]);
    FieldStep(sch, c, es[i], m0.fields[i], Payloads(pre, f.tag), f.payload);
    var m1 := Filled(sch, c, es, m0, pre + [f]);
    var s := Store(es, Filled(sch, c, es, m0, pre), i, DecValue(sch, c, es[i], f.payload).value);
    assert forall j :: 0 <= j < |es| && j != i ==> Payloads(pre + [f], es[j].tag) == Payloads(pre, es[j].tag);
    assert m1.fields == s.fields;
    PrefixStep(sch, c, es, pre, f);
  }

  lemma FilledAt(sch: Schema, c: Codec, es: seq<Entry>, m0: Msg, fs: seq<Frame>)
    requires WellFormed(sch) && WellFormedStruct(sch, es) && Sound(c) && Blank(es, m0)
    ensures var m := Filled(sch, c, es, m0, fs);
      && |m.fields| == |es|
      && forall j :: 0 <= j < |es| ==> m.fields[j] == FilledField(sch, c, es[j], m0.fields[j], Payloads(fs, es[j].tag))
  {
    hide WellFormed, Sound, FilledField, Payloads;
  }

  lemma PrefixStep(sch: Schema, c: Codec, es: seq<Entry>, pre: seq<Frame>, f: Frame)
    requires WellFormed(sch) && WellFormedStruct(sch, es) && Sound(c)
    requires PrefixOk(sch, c, es, pre) && Select(es, f.tag) < |es|
    requires var e := es[Select(es, f.tag)];
      (e.isArray || Payloads(pre, f.tag) == []) && Decodes(sch, c, e, f.payload) && DecValue(sch, c, e, f.payload).Some?
    ensures PrefixOk(sch, c, es, pre + [f])
  {
    hide Decodes, DecValue, Sound, WellFormed, EntryReadOk, Payloads;
    PayloadsStep(es, pre, f);
    assert forall i :: 0 <= i < |es| && i != Select(es, f.tag) ==> Payloads(pre + [f], es[i].tag) == Payloads(pre, es[i].tag);
    forall i | 0 <= i < |es| ensures EntryReadOk(sch, c, es[i], Payloads(pre + [f], es[i].tag)) {
      assert EntryReadOk(sch, c, es[i], Payloads(pre, es[i].tag));
      if i == Select(es, f.tag) { EntryReadStep(sch, c, es[i], Payloads(pre, es[i].tag), f.payload); }
    }
  }

  lemma EntryReadStep(sch: Schema, c: Codec, e: Entry, ps: seq<Bytes>, p: Bytes)
    requires WellFormed(sch) && (e.kind.KStruct? ==> e.kind.refname in sch) && Sound(c)
    requires EntryReadOk(sch, c, e, ps) && (e.isArray || ps == [])
    requires Decodes(sch, c, e, p) && DecValue(sch, c, e, p).Some?
    ensures EntryReadOk(sch, c, e, ps + [p])
  {
    hide Decodes, DecValue, Sound, WellFormed;
  }

  lemma PayloadsStep(es: seq<Entry>, pre: seq<Frame>, f: Frame)
    requires DistinctTags(es) && Select(es, f.tag) < |es|
    ensures forall j :: 0 <= j < |es| ==>
      Payloads(pre + [f], es[j].tag) == Payloads(pre, es[j].tag) + if j == Select(es, f.tag) then [f.payload] else []
  {
    forall j | 0 <= j < |es|
      ensures Payloads(pre + [f], es[j].tag) == Payloads(pre, es[j].tag) + if j == Select(es, f.tag) then [f.payload] else []
    {
      PayloadsConcat(pre, [f], es[j].tag);
      assert Payloads([f], es[j].tag) == if j == Select(es, f.tag) then [f.payload] else [];
    }
  }

  lemma FieldStep(sch: Schema, c: Codec, e: Entry, f0: Field, ps: seq<Bytes>, p: Bytes)
    requires WellFormed(sch) && (e.kind.KStruct? ==> e.kind.refname in sch) && Sound(c)
    requires (e.isArray ==> f0.items == []) && (e.isArray || ps == [])
    requires DecValue(sch, c, e, p).Some?
    ensures FilledField(sch, c, e, f0, ps + [p]) == Field(true,
      if e.isArray then FilledField(sch, c, e, f0, ps).items + [DecValue(sch, c, e, p).value]
      else [DecValue(sch, c, e, p).value])
  {
    hide DecValue, Sound, WellFormed;
  }

  // ---------- Round trip ----------

  ghost function Encodings(sch: Schema, c: Codec, e: Entry, items: seq<Value>): (ps: seq<Bytes>)
    requires WellFormed(sch) && (e.kind.KStruct? ==> e.kind.refname in sch) && ItemsOk(sch, e, items)
    ensures |ps| == |items|
  {
    if items == [] then [] else [EncValue(sch, c, e, items[0])] + Encodings(sch, c, e, items[1..])
  }

  lemma {:induction false} EncodingsAt(sch: Schema, c: Codec, e: Entry, items: seq<Value>, j: nat)
    requires WellFormed(sch) && (e.kind.KStruct? ==> e.kind.refname in sch) && ItemsOk(sch, e, items) && j < |items|
    ensures Encodings(sch, c, e, items)[j] == EncValue(sch, c, e, items[j])
  {
    if j > 0 { EncodingsAt(sch, c, e, items[1..], j - 1); }
  }

  lemma {:induction false} PayloadsOfItems(sch: Schema, c: Codec, e: Entry, items: seq<Value>, tag: nat)
    requires WellFormed(sch) && (e.kind.KStruct? ==> e.kind.refname in sch) && ItemsOk(sch, e, items)
    ensures Payloads(MarshalItems(sch, c, e, items), tag) == if tag == e.tag then Encodings(sch, c, e, items) else []
    ensures forall f :: f in MarshalItems(sch, c, e, items) ==> f.tag == e.tag
  {
    if items != [] {
      PayloadsOfItems(sch, c, e, items[1..], tag);
      var fs := MarshalItems(sch, c, e, items);
      assert fs[1..] == MarshalItems(sch, c, e, items[1..]);
    }
  }

  lemma NoPayloads(tag: nat)
    ensures Payloads([], tag) == []
  {
  }

  lemma EntryOk(sch: Schema, es: seq<Entry>, m: Msg, i: nat)
    requires WellFormed(sch) && WellFormedStruct(sch, es) && Typed(sch, es, m) && Marshallable(sch, es, m) && i < |es|
    ensures es[i].kind.KStruct? ==> es[i].kind.refname in sch
    ensures MarshallableField(sch, es[i], m.fields[i]) && FieldOk(sch, es[i], m.fields[i])
    ensures !es[i].isArray ==> |m.fields[i].items| <= 1
    ensures !es[i].isArray && m.fields[i].isSet ==> m.fields[i].items != []
    ensures es[i].isArray ==> (m.fields[i].isSet <==> m.fields[i].items != [])
  {
    assert MarshallableField(sch, es[i], m.fields[i]) && es[i] in es;
  }

  /** The payloads X_marshal writes for one entry. */
  ghost function FieldPayloads(sch: Schema, c: Codec, e: Entry, f: Field): seq<Bytes>
    requires WellFormed(sch) && (e.kind.KStruct? ==> e.kind.refname in sch) && FieldOk(sch, e, f)
  {
    if WritesDefault(e, f) then [EncDefault(c, e.kind)]
    else if Writes(e, f) then Encodings(sch, c, e, f.items)
    else []
  }

  lemma PayloadsOfField(sch: Schema, c: Codec, e: Entry, f: Field, tag: nat)
    requires WellFormed(sch) && (e.kind.KStruct? ==> e.kind.refname in sch) && FieldOk(sch, e, f)
    ensures Payloads(MarshalField(sch, c, e, f), tag) == if tag == e.tag then FieldPayloads(sch, c, e, f) else []
    ensures forall g :: g in MarshalField(sch, c, e, f) ==> g.tag == e.tag
  {
    hide WellFormed, ItemsOk, EncDefault;
    if WritesDefault(e, f) {
      assert [Frame(e.tag, EncDefault(c, e.kind))][1..] == [];
    } else if Writes(e, f) {
      PayloadsOfItems(sch, c, e, f.items, tag);
    }
  }

  lemma SameTag(sch: Schema, es: seq<Entry>, i: nat, j: nat)
    requires WellFormedStruct(sch, es) && i < |es| && j < |es|
    ensures es[i].tag == es[j].tag <==> i == j
  {
  }

  /** The payloads of a marshalled message under the tag of entry i: those of that entry. */
  lemma {:induction false} PayloadsOfMarshal(sch: Schema, c: Codec, es: seq<Entry>, m: Msg, n: nat, i: nat)
    requires WellFormed(sch) && WellFormedStruct(sch, es) && Typed(sch, es, m) && Marshallable(sch, es, m)
    requires n <= |es| == |m.fields| && i < |es|
    requires (es[i].kind.KStruct? ==> es[i].kind.refname in sch) && FieldOk(sch, es[i], m.fields[i])
    ensures Payloads(MarshalUpTo(sch, c, es, m, n), es[i].tag) ==
      if i < n then FieldPayloads(sch, c, es[i], m.fields[i]) else []
  {
    hide WellFormed, WellFormedStruct, Typed, Marshallable, FieldOk, MarshalField, FieldPayloads, MarshallableField, Payloads;
    if n == 0 {
      NoPayloads(es[i].tag);
    } else {
      PayloadsOfMarshal(sch, c, es, m, n - 1, i);
      EntryOk(sch, es, m, n - 1);
      SameTag(sch, es, n - 1, i);
      PayloadsConcat(MarshalUpTo(sch, c, es, m, n - 1), MarshalField(sch, c, es[n - 1], m.fields[n - 1]), es[i].tag);
      PayloadsOfField(sch, c, es[n - 1], m.fields[n - 1], es[i].tag);
    }
  }

  lemma {:induction false} MarshalledAreKnown(sch: Schema, c: Codec, es: seq<Entry>, m: Msg, n: nat)
    requires WellFormed(sch) && WellFormedStruct(sch, es) && Typed(sch, es, m) && Marshallable(sch, es, m)
    requires n <= |es| == |m.fields|
    ensures Known(es, MarshalUpTo(sch, c, es, m, n))
  {
    hide WellFormed, Typed, Marshallable, FieldOk, MarshalField;
    if n > 0 {
      MarshalledAreKnown(sch, c, es, m, n - 1);
      EntryOk(sch, es, m, n - 1);
      SelectFinds(es, n - 1);
      PayloadsOfField(sch, c, es[n - 1], m.fields[n - 1], es[n - 1].tag);
    }
  }

  lemma {:induction false} CStringOfText(b: Bytes)
    requires 0 !in b
    ensures CString(b) == b
  {
    if b != [] { CStringOfText(b[1..]); }
  }

  /** Decoding a value's encoding gives what was sent of it. */
  lemma {:induction false} DecodeEncode(sch: Schema, c: Codec, e: Entry, v: Value)
    requires WellFormed(sch) && (e.kind.KStruct? ==> e.kind.refname in sch) && Sound(c) && ValueOk(sch, e, v)
    ensures DecValue(sch, c, e, EncValue(sch, c, e, v)) == Some(SentValue(sch, e, v))
    decreases v, 0
  {
    match e.kind
    case KStruct(r) => RoundTrip(sch, c, sch[r], v.m);
    case KString => CStringOfText(v.b);
    case _ =>
  }

  /** Reading back what was written into a fresh struct gives what the frames say, however deeply
      nested. It is accepted even if the message written was not complete. */
  lemma {:induction false} RoundTrip(sch: Schema, c: Codec, es: seq<Entry>, m: Msg)
    requires WellFormed(sch) && WellFormedStruct(sch, es) && Sound(c)
    requires Typed(sch, es, m) && Marshallable(sch, es, m)
    ensures Unmarshal(sch, c, es, Fresh(es), Marshal(sch, c, es, m)) == Some(Sent(sch, es, m))
    decreases m, 1
  {
    var fs := Marshal(sch, c, es, m);
    forall i | 0 <= i < |es| ensures FieldReadBack(sch, c, es, m, fs, i) {
      FieldRoundTrip(sch, c, es, m, i);
    }
    UnmarshalExact(sch, c, es, Fresh(es), fs);
    MarshalledAreKnown(sch, c, es, m, |es|);
    ReadBackAccepted(sch, c, es, m, fs);
  }

  /** Entry i is read back from fs as it was sent, and is accepted. */
  ghost predicate FieldReadBack(sch: Schema, c: Codec, es: seq<Entry>, m: Msg, fs: seq<Frame>, i: nat)
    requires WellFormed(sch) && WellFormedStruct(sch, es) && Sound(c) && i < |es| == |m.fields|
  {
    ReadsAs(sch, c, es[i], Payloads(fs, es[i].tag), SentField(sch, es[i], m.fields[i]))
  }

  ghost predicate ReadsAs(sch: Schema, c: Codec, e: Entry, ps: seq<Bytes>, f: Field)
    requires WellFormed(sch) && (e.kind.KStruct? ==> e.kind.refname in sch) && Sound(c)
  {
    && (e.isArray || |ps| <= 1)
    && (e.isArray || e.optional || |ps| >= 1)
    && (forall p :: p in ps ==> Decodes(sch, c, e, p))
    && FilledField(sch, c, e, Field(false, []), ps) == f
  }

  lemma {:induction false} FieldRoundTrip(sch: Schema, c: Codec, es: seq<Entry>, m: Msg, i: nat)
    requires WellFormed(sch) && WellFormedStruct(sch, es) && Sound(c)
    requires Typed(sch, es, m) && Marshallable(sch, es, m) && i < |es| == |m.fields|
    ensures FieldReadBack(sch, c, es, m, Marshal(sch, c, es, m), i)
    decreases m, 0
  {
    hide WellFormed, Typed, Marshallable, Sound, Payloads, SentField, FieldOk, MarshallableField, FieldPayloads, ReadsAs;
    EntryOk(sch, es, m, i);
    PayloadsOfMarshal(sch, c, es, m, |es|, i);
    assert m.fields[i] < m;
    PayloadsRoundTrip(sch, c, es[i], m.fields[i]);
  }

  lemma {:induction false} PayloadsRoundTrip(sch: Schema, c: Codec, e: Entry, f: Field)
    requires WellFormed(sch) && (e.kind.KStruct? ==> e.kind.refname in sch) && Sound(c)
    requires FieldOk(sch, e, f) && MarshallableField(sch, e, f) && (!e.isArray ==> |f.items| <= 1)
    ensures ReadsAs(sch, c, e, FieldPayloads(sch, c, e, f), SentField(sch, e, f))
    decreases f, 0
  {
    hide WellFormed, Sound, Decodes, DecValue, Marshallable, EncDefault, ItemsOk, SentValue;
    if WritesDefault(e, f) {
      DefaultReadsBack(sch, c, e);
      DecodesIff(sch, c, e, EncDefault(c, e.kind));
    } else if Writes(e, f) && f.items != [] {
      ItemsRoundTrip(sch, c, e, f.items);
    }
  }

  lemma DefaultReadsBack(sch: Schema, c: Codec, e: Entry)
    requires WellFormed(sch) && Sound(c) && !e.kind.KString? && !e.kind.KStruct?
    ensures DecValue(sch, c, e, EncDefault(c, e.kind)) == Some(Default(e.kind))
  {
  }

  ghost function SentItems(sch: Schema, e: Entry, items: seq<Value>): seq<Value>
    requires WellFormed(sch) && (e.kind.KStruct? ==> e.kind.refname in sch)
  {
    seq(|items|, j requires 0 <= j < |items| => SentValue(sch, e, items[j]))
  }

  lemma {:induction false} ItemsRoundTrip(sch: Schema, c: Codec, e: Entry, items: seq<Value>)
    requires WellFormed(sch) && (e.kind.KStruct? ==> e.kind.refname in sch) && Sound(c) && ItemsOk(sch, e, items)
    requires items != []
    ensures var ps := Encodings(sch, c, e, items);
      && (forall p :: p in ps ==> Decodes(sch, c, e, p))
      && FilledField(sch, c, e, Field(false, []), ps) == Field(true, SentItems(sch, e, items))
    decreases items, 0
  {
    hide WellFormed, Sound, Decodes, DecValue, SentValue, ValueOk, EncValue;
    var ps := Encodings(sch, c, e, items);
    forall j | 0 <= j < |items|
      ensures DecValue(sch, c, e, ps[j]) == Some(SentValue(sch, e, items[j])) && Decodes(sch, c, e, ps[j])
    {
      EncodingsAt(sch, c, e, items, j);
      assert items[j] in items;
      DecodeEncode(sch, c, e, items[j]);
      DecodesIff(sch, c, e, ps[j]);
    }
  }

  lemma ReadBackAccepted(sch: Schema, c: Codec, es: seq<Entry>, m: Msg, fs: seq<Frame>)
    requires WellFormed(sch) && WellFormedStruct(sch, es) && Sound(c) && |m.fields| == |es| && Known(es, fs)
    requires forall i :: 0 <= i < |es| ==> FieldReadBack(sch, c, es, m, fs, i)
    ensures Accepts(sch, c, es, fs)
    ensures Filled(sch, c, es, Fresh(es), fs) == Sent(sch, es, m)
  {
    hide WellFormed, Sound, Decodes, SentField, FilledField, Payloads;
    var filled := Filled(sch, c, es, Fresh(es), fs);
    forall i | 0 <= i < |es| ensures filled.fields[i] == Sent(sch, es, m).fields[i] {
      assert FieldReadBack(sch, c, es, m, fs, i);
    }
    assert filled.fields == Sent(sch, es, m).fields;
    forall i | 0 <= i < |es|
      ensures (es[i].isArray || |Payloads(fs, es[i].tag)| <= 1)
      ensures (es[i].isArray || es[i].optional || |Payloads(fs, es[i].tag)| >= 1)
      ensures forall p :: p in Payloads(fs, es[i].tag) ==> Decodes(sch, c, es[i], p)
    {
      assert FieldReadBack(sch, c, es, m, fs, i);
    }
    assert Accepts(sch, c, es, fs);
  }

  // ---------- Complete and incomplete messages ----------

  lemma {:induction false} CompleteIsMarshallable(sch: Schema, es: seq<Entry>, m: Msg)
    requires WellFormed(sch) && WellFormedStruct(sch, es) && Typed(sch, es, m) && Complete(sch, es, m)
    ensures Marshallable(sch, es, m)
    decreases m
  {
    forall i | 0 <= i < |es| ensures MarshallableField(sch, es[i], m.fields[i]) {
      var e, f := es[i], m.fields[i];
      assert e in es && CompleteField(sch, e, f);
      if Writes(e, f) && e.kind.KStruct? {
        forall v | v in f.items && v.VStruct? ensures Marshallable(sch, sch[e.kind.refname], v.m) {
          assert TypedValue(sch, e, v);
          CompleteIsMarshallable(sch, sch[e.kind.refname], v.m);
        }
      }
    }
  }

  /** What is sent is what the message says exactly when the message is complete; an unset required
      entry of an incomplete one is sent as if it had been set. */
  lemma {:induction false} SentIffComplete(sch: Schema, es: seq<Entry>, m: Msg)
    requires WellFormed(sch) && WellFormedStruct(sch, es) && Typed(sch, es, m) && Marshallable(sch, es, m)
    ensures Sent(sch, es, m) == View(m) <==> Complete(sch, es, m)
    decreases m, 1
  {
    hide WellFormed, CompleteField, SentField, ViewField, MarshallableField;
    forall i | 0 <= i < |es|
      ensures SentField(sch, es[i], m.fields[i]) == ViewField(m.fields[i]) <==> CompleteField(sch, es[i], m.fields[i])
    {
      EntryOk(sch, es, m, i);
      assert m.fields[i] < m;
      SentFieldIffComplete(sch, es[i], m.fields[i]);
    }
    if Complete(sch, es, m) {
      assert Sent(sch, es, m).fields == View(m).fields;
    } else {
      var i :| 0 <= i < |es| && !CompleteField(sch, es[i], m.fields[i]);
      assert Sent(sch, es, m).fields[i] != View(m).fields[i];
    }
  }

  lemma {:induction false} SentFieldIffComplete(sch: Schema, e: Entry, f: Field)
    requires WellFormed(sch) && (e.kind.KStruct? ==> e.kind.refname in sch)
    requires FieldOk(sch, e, f) && (!e.isArray && f.isSet ==> f.items != [])
    requires e.isArray ==> (f.isSet <==> f.items != [])
    ensures SentField(sch, e, f) == ViewField(f) <==> CompleteField(sch, e, f)
    decreases f, 0
  {
    hide Complete, ValueOk, SentValue, ViewValue;
    if f.isSet {
      forall j | 0 <= j < |f.items|
        ensures SentValue(sch, e, f.items[j]) == ViewValue(f.items[j]) <==>
          (e.kind.KStruct? && f.items[j].VStruct? ==> Complete(sch, sch[e.kind.refname], f.items[j].m))
      {
        assert f.items[j] in f.items;
        SentValueIffComplete(sch, e, f.items[j]);
      }
      if SentField(sch, e, f) == ViewField(f) {
        forall v | v in f.items && v.VStruct? && e.kind.KStruct? ensures Complete(sch, sch[e.kind.refname], v.m) {
          var j :| 0 <= j < |f.items| && f.items[j] == v;
          assert SentField(sch, e, f).items[j] == ViewField(f).items[j];
        }
      }
      if CompleteField(sch, e, f) {
        assert SentField(sch, e, f).items == ViewField(f).items;
      }
    }
  }

  lemma {:induction false} SentValueIffComplete(sch: Schema, e: Entry, v: Value)
    requires WellFormed(sch) && (e.kind.KStruct? ==> e.kind.refname in sch) && ValueOk(sch, e, v)
    ensures SentValue(sch, e, v) == ViewValue(v) <==>
      (e.kind.KStruct? && v.VStruct? ==> Complete(sch, sch[e.kind.refname], v.m))
    decreases v, 0
  {
    if e.kind.KStruct? { SentIffComplete(sch, sch[e.kind.refname], v.m); }
  }

  /** A message without its one required integer: it is not complete, but what was written of it is read
      as a complete message saying zero. */
  lemma IncompleteArrives(c: Codec, tag: nat)
    requires Sound(c)
    ensures var es := [Entry("n", tag, KInt, false, false)];
      var sch, m := map["s" := es], Msg([Field(false, [])]);
      && WellFormed(sch) && WellFormedStruct(sch, es) && Typed(sch, es, m) && Marshallable(sch, es, m)
      && !Complete(sch, es, m)
      && Unmarshal(sch, c, es, Fresh(es), Marshal(sch, c, es, m)) == Some(Msg([Field(true, [VInt(0)])]))
  {
    var es := [Entry("n", tag, KInt, false, false)];
    var sch, m := map["s" := es], Msg([Field(false, [])]);
    assert !CompleteField(sch, es[0], m.fields[0]);
    RoundTrip(sch, c, es, m);
    assert Sent(sch, es, m).fields == [Field(true, [VInt(0)])];
  }

  /** What is sent holds no data that is not set. */
  lemma {:induction false} SentIsSeen(sch: Schema, es: seq<Entry>, m: Msg)
    requires WellFormed(sch) && WellFormedStruct(sch, es) && Typed(sch, es, m)
    ensures View(Sent(sch, es, m)) == Sent(sch, es, m)
    decreases m, 1
  {
    hide SentField, ViewField;
    var s := Sent(sch, es, m);
    forall i | 0 <= i < |es| ensures ViewField(s.fields[i]) == s.fields[i] {
      assert es[i] in es && m.fields[i] < m;
      SentFieldIsSeen(sch, es[i], m.fields[i]);
    }
    assert View(s).fields == s.fields;
  }

  lemma {:induction false} SentFieldIsSeen(sch: Schema, e: Entry, f: Field)
    requires WellFormed(sch) && (e.kind.KStruct? ==> e.kind.refname in sch)
    requires forall v :: v in f.items ==> TypedValue(sch, e, v)
    ensures ViewField(SentField(sch, e, f)) == SentField(sch, e, f)
    decreases f, 0
  {
    hide SentValue, ViewValue, TypedValue;
    var s := SentField(sch, e, f);
    if WritesDefault(e, f) {
      DefaultIsSeen(e.kind);
    } else if Writes(e, f) {
      forall j | 0 <= j < |f.items| ensures ViewValue(SentValue(sch, e, f.items[j])) == SentValue(sch, e, f.items[j]) {
        assert f.items[j] in f.items;
        SentValueIsSeen(sch, e, f.items[j]);
      }
    }
    if s.isSet { assert ViewField(s).items == s.items; }
  }

  lemma DefaultIsSeen(k: Kind)
    ensures ViewValue(Default(k)) == Default(k)
  {
  }

  lemma {:induction false} SentValueIsSeen(sch: Schema, e: Entry, v: Value)
    requires WellFormed(sch) && (e.kind.KStruct? ==> e.kind.refname in sch) && TypedValue(sch, e, v)
    ensures ViewValue(SentValue(sch, e, v)) == SentValue(sch, e, v)
    decreases v, 0
  {
    if e.kind.KStruct? { SentIsSeen(sch, sch[e.kind.refname], v.m); }
  }

  // ---------- Order of frames ----------

  lemma {:induction false} SomePayload(fs: seq<Frame>, tag: nat)
    requires Payloads(fs, tag) != []
    ensures exists f :: f in fs && f.tag == tag
  {
    if fs[0].tag != tag {
      SomePayload(fs[1..], tag);
      var f :| f in fs[1..] && f.tag == tag;
      assert f in fs;
    } else {
      assert fs[0] in fs;
    }
  }

  lemma KnownByPayloads(es: seq<Entry>, fs: seq<Frame>, gs: seq<Frame>)
    requires forall t: nat :: Payloads(fs, t) == Payloads(gs, t)
    requires Known(es, fs)
    ensures Known(es, gs)
  {
    forall g | g in gs ensures Select(es, g.tag) < |es| {
      PayloadOfFrame(gs, g);
      SomePayload(fs, g.tag);
    }
  }

  /** Only the order of the frames within one tag matters. */
  lemma OrderAcrossTagsIsFree(sch: Schema, c: Codec, es: seq<Entry>, m0: Msg, fs: seq<Frame>, gs: seq<Frame>)
    requires WellFormed(sch) && WellFormedStruct(sch, es) && Sound(c) && Blank(es, m0)
    requires forall t: nat :: Payloads(fs, t) == Payloads(gs, t)
    ensures Unmarshal(sch, c, es, m0, fs) == Unmarshal(sch, c, es, m0, gs)
  {
    hide Sound, WellFormed, Decodes, DecValue, Payloads;
    UnmarshalExact(sch, c, es, m0, fs);
    UnmarshalExact(sch, c, es, m0, gs);
    if Known(es, fs) { KnownByPayloads(es, fs, gs); }
    if Known(es, gs) { KnownByPayloads(es, gs, fs); }
    assert Accepts(sch, c, es, fs) <==> Accepts(sch, c, es, gs);
    assert Filled(sch, c, es, m0, fs).fields == Filled(sch, c, es, m0, gs).fields;
  }

  lemma PayloadsOfTwo(f: Frame, g: Frame, t: nat)
    ensures Payloads([f, g], t) == (if f.tag == t then [f.payload] else []) + (if g.tag == t then [g.payload] else [])
  {
    assert [f, g][1..] == [g] && [g][1..] == [];
    assert Payloads([g], t) == if g.tag == t then [g.payload] else [];
  }

  lemma SwapPayloads(a: seq<Frame>, f: Frame, g: Frame, b: seq<Frame>, t: nat)
    requires f.tag != g.tag
    ensures Payloads(a + [f, g] + b, t) == Payloads(a + [g, f] + b, t)
  {
    hide Payloads;
    PayloadsConcat(a + [f, g], b, t);
    PayloadsConcat(a, [f, g], t);
    PayloadsConcat(a + [g, f], b, t);
    PayloadsConcat(a, [g, f], t);
    PayloadsOfTwo(f, g, t);
    PayloadsOfTwo(g, f, t);
  }

  /** Two neighbouring frames with different tags may change places. */
  lemma SwappingTagsIsFree(sch: Schema, c: Codec, es: seq<Entry>, m0: Msg, a: seq<Frame>, f: Frame, g: Frame, b: seq<Frame>)
    requires WellFormed(sch) && WellFormedStruct(sch, es) && Sound(c) && Blank(es, m0) && f.tag != g.tag
    ensures Unmarshal(sch, c, es, m0, a + [f, g] + b) == Unmarshal(sch, c, es, m0, a + [g, f] + b)
  {
    hide Sound, WellFormed, Unmarshal, Payloads;
    forall t: nat ensures Payloads(a + [f, g] + b, t) == Payloads(a + [g, f] + b, t) {
      SwapPayloads(a, f, g, b, t);
    }
    OrderAcrossTagsIsFree(sch, c, es, m0, a + [f, g] + b, a + [g, f] + b);
  }

  // ---------- Clearing and copying ----------

  /** What the generated clear code leaves of a field: an integer keeps its old value, a fixed byte
      block is zeroed, everything else is dropped if it was set. */
  function ClearField(e: Entry, f: Field): Field {
    if e.isArray || e.kind.KString? || e.kind.KVarBytes? || e.kind.KStruct? then
      if f.isSet then Field(false, []) else f
    else if e.kind.KBytes? then Field(false, [VBytes(seq(e.kind.length, _ => 0))])
    else Field(false, f.items)
  }

  function Clear(es: seq<Entry>, m: Msg): Msg
    requires |es| == |m.fields|
  {
    Msg(seq(|es|, i requires 0 <= i < |es| => ClearField(es[i], m.fields[i])))
  }

  /** What a cleared field would send: nothing if it is optional or an array, zero bytes for a required
      byte block, but for a required integer the value it held before. A fresh one sends zeros. */
  lemma ClearedIsSent(sch: Schema, e: Entry, f: Field)
    requires WellFormed(sch) && Legal(e) && (e.kind.KStruct? ==> e.kind.refname in sch)
    requires e.isArray ==> (f.isSet <==> f.items != [])
    ensures var sent := SentField(sch, e, ClearField(e, f));
      && (e.optional || e.isArray ==> sent == Field(false, []))
      && (!e.optional && e.kind.KBytes? ==> sent == Field(true, [VBytes(seq(e.kind.length, _ => 0))]))
      && (!e.optional && !e.isArray && (e.kind.KInt? || e.kind.KInt64?) ==>
            sent == Field(true, if f.items == [] then [VInt(0)] else f.items))
    ensures var sent := SentField(sch, e, Field(false, []));
      && (!e.optional && e.kind.KBytes? ==> sent == Field(true, [VBytes(seq(e.kind.length, _ => 0))]))
      && (!e.optional && !e.isArray && (e.kind.KInt? || e.kind.KInt64?) ==> sent == Field(true, [VInt(0)]))
  {
    hide WellFormed;
    var g := ClearField(e, f);
    if !WritesDefault(e, g) && Writes(e, g) && g.items != [] && !e.kind.KStruct? {
      assert SentField(sch, e, g).items == g.items;
    }
  }

  /** Marshalling a message and reading it into a cleared struct copies what is sent: whatever the
      struct held before, it now says just that, which is what the message says if it is complete. */
  lemma CopyIsExact(sch: Schema, c: Codec, es: seq<Entry>, old0: Msg, m: Msg)
    requires WellFormed(sch) && WellFormedStruct(sch, es) && Sound(c)
    requires Typed(sch, es, m) && Marshallable(sch, es, m) && Typed(sch, es, old0)
    ensures var r := Unmarshal(sch, c, es, Clear(es, old0), Marshal(sch, c, es, m));
      r.Some? && View(r.value) == Sent(sch, es, m)
  {
    hide Sound, WellFormed, Decodes, DecValue, Payloads, Marshal, Accepts, FilledField;
    var m0, fs := Clear(es, old0), Marshal(sch, c, es, m);
    assert Blank(es, m0);
    UnmarshalExact(sch, c, es, m0, fs);
    UnmarshalExact(sch, c, es, Fresh(es), fs);
    RoundTrip(sch, c, es, m);
    SentIsSeen(sch, es, m);
    ViewIgnoresOldData(sch, c, es, m0, fs);
  }

  lemma ViewIgnoresOldData(sch: Schema, c: Codec, es: seq<Entry>, m0: Msg, fs: seq<Frame>)
    requires WellFormed(sch) && WellFormedStruct(sch, es) && Sound(c) && Blank(es, m0)
    ensures View(Filled(sch, c, es, m0, fs)) == View(Filled(sch, c, es, Fresh(es), fs))
  {
    hide Sound, WellFormed, DecValue, Payloads;
    var a, b := Filled(sch, c, es, m0, fs), Filled(sch, c, es, Fresh(es), fs);
    forall i | 0 <= i < |es| ensures ViewField(a.fields[i]) == ViewField(b.fields[i]) {}
    assert View(a).fields == View(b).fields;
  }
}
