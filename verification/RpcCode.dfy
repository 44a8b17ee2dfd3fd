/** The emitted C functions as programs: they fill and drain an evbuffer, a frame at a time. */
module RpcCode {
  import opened Machine
  import opened RpcWire
  import opened RpcTheorems

  class EvBuffer {
    var frames: seq<Frame>

    constructor (frames: seq<Frame>)
      ensures this.frames == frames
    {
      this.frames := frames;
    }
  }

  /** X_marshal. */
  method MarshalInto(buf: EvBuffer, sch: Schema, c: Codec, es: seq<Entry>, m: Msg)
    requires WellFormed(sch) && WellFormedStruct(sch, es) && Typed(sch, es, m) && Marshallable(sch, es, m)
    modifies buf
    ensures buf.frames == old(buf.frames) + Marshal(sch, c, es, m)
    decreases m, 3
  {
    for n := 0 to |es|
      invariant buf.frames == old(buf.frames) + MarshalUpTo(sch, c, es, m, n)
    {
      EntryOk(sch, es, m, n);
      assert m.fields[n] < m;
      MarshalFieldInto(buf, sch, c, es[n], m.fields[n]);
    }
  }

  method MarshalFieldInto(buf: EvBuffer, sch: Schema, c: Codec, e: Entry, f: Field)
    requires WellFormed(sch) && (e.kind.KStruct? ==> e.kind.refname in sch) && FieldOk(sch, e, f)
    modifies buf
    ensures buf.frames == old(buf.frames) + MarshalField(sch, c, e, f)
    decreases f, 2
  {
    if e.isArray || f.isSet || !e.optional {
      if !e.isArray && f.items == [] {
        buf.frames := buf.frames + [Frame(e.tag, EncDefault(c, e.kind))];
      } else {
        MarshalItemsInto(buf, sch, c, e, f.items);
      }
    }
  }

  method MarshalItemsInto(buf: EvBuffer, sch: Schema, c: Codec, e: Entry, items: seq<Value>)
    requires WellFormed(sch) && (e.kind.KStruct? ==> e.kind.refname in sch) && ItemsOk(sch, e, items)
    modifies buf
    ensures buf.frames == old(buf.frames) + MarshalItems(sch, c, e, items)
    decreases items, 1
  {
    for i := 0 to |items|
      invariant old(buf.frames) + MarshalItems(sch, c, e, items) == buf.frames + MarshalItems(sch, c, e, items[i..])
    {
      assert items[i] in items && items[i..][1..] == items[i + 1..];
      var b := EncodeValue(sch, c, e, items[i]);
      buf.frames := buf.frames + [Frame(e.tag, b)];
    }
  }

  method EncodeValue(sch: Schema, c: Codec, e: Entry, v: Value) returns (b: Bytes)
    requires WellFormed(sch) && (e.kind.KStruct? ==> e.kind.refname in sch) && ValueOk(sch, e, v)
    ensures b == EncValue(sch, c, e, v)
    decreases v, 0
  {
    match e.kind
    case KInt => b := c.encInt(v.n);
    case KInt64 => b := c.encInt64(v.n);
    case KBytes(_) | KVarBytes | KString => b := v.b;
    case KStruct(r) =>
      var tmp := new EvBuffer([]);
      MarshalInto(tmp, sch, c, sch[r], v.m);
      assert tmp.frames == Marshal(sch, c, sch[r], v.m);
      b := c.encFrames(tmp.frames);
  }

  /** X_complete. */
  method CheckComplete(sch: Schema, es: seq<Entry>, m: Msg) returns (ok: bool)
    requires WellFormed(sch) && WellFormedStruct(sch, es) && |m.fields| == |es|
    ensures ok <==> Complete(sch, es, m)
    decreases m
  {
    for i := 0 to |es|
      invariant forall j :: 0 <= j < i ==> CompleteField(sch, es[j], m.fields[j])
    {
      var e, f := es[i], m.fields[i];
      assert e in es && m.fields[i] < m;
      if !e.optional && !e.isArray && !f.isSet { return false; }
      if f.isSet && e.kind.KStruct? {
        var es' := sch[e.kind.refname];
        for j := 0 to |f.items|
          invariant forall v :: v in f.items[..j] && v.VStruct? ==> Complete(sch, es', v.m)
        {
          var v := f.items[j];
          assert v in f.items && v < f;
          if v.VStruct? {
            // an instance always has the shape of its schema
            var inner := |v.m.fields| == |es'|;
            if inner { inner := CheckComplete(sch, es', v.m); }
            if !inner {
              assert !Complete(sch, es', v.m) && !CompleteField(sch, e, f);
              return false;
            }
          }
        }
        assert f.items[..|f.items|] == f.items;
      }
    }
    ok := true;
  }

  /** X_unmarshal: drains buf into m0. */
  method UnmarshalFrom(buf: EvBuffer, sch: Schema, c: Codec, es: seq<Entry>, m0: Msg) returns (ok: bool, m: Msg)
    requires WellFormed(sch) && WellFormedStruct(sch, es) && Sound(c) && |m0.fields| == |es|
    modifies buf
    ensures Unmarshal(sch, c, es, m0, old(buf.frames)) == if ok then Some(m) else None
    ensures ok ==> buf.frames == []
    decreases Weight(buf.frames), 1
  {
    m := m0;
    while buf.frames != []
      invariant |m.fields| == |es|
      invariant Weight(buf.frames) <= Weight(old(buf.frames))
      invariant Unmarshal(sch, c, es, m0, old(buf.frames)) == Unmarshal(sch, c, es, m, buf.frames)
      decreases |buf.frames|
    {
      var f := buf.frames[0];
      var i := Select(es, f.tag);
      if i == |es| { return false, m; }
      if !es[i].isArray && m.fields[i].isSet { return false, m; }
      assert es[i] in es;
      var v := DecodeValue(sch, c, es[i], f.payload);
      if v.None? { return false, m; }
      m := Store(es, m, i, v.value);
      buf.frames := buf.frames[1..];
    }
    ok := CheckComplete(sch, es, m);
  }

  method DecodeValue(sch: Schema, c: Codec, e: Entry, b: Bytes) returns (v: Option<Value>)
    requires WellFormed(sch) && (e.kind.KStruct? ==> e.kind.refname in sch) && Sound(c)
    ensures v == DecValue(sch, c, e, b)
    decreases |b|, 2
  {
    match e.kind
    case KInt =>
      var n := c.decInt(b);
      v := if n.Some? then Some(VInt(n.value)) else None;
    case KInt64 =>
      var n := c.decInt64(b);
      v := if n.Some? then Some(VInt(n.value)) else None;
    case KBytes(n) => v := if |b| == n then Some(VBytes(b)) else None;
    case KVarBytes => v := Some(VBytes(b));
    case KString => v := Some(VBytes(CString(b)));
    case KStruct(r) =>
      var fs := c.decFrames(b);
      if fs.None? { return None; }
      var tmp := new EvBuffer(fs.value);
      var ok, m := UnmarshalFrom(tmp, sch, c, sch[r], Fresh(sch[r]));
      v := if ok then Some(VStruct(m)) else None;
  }

  /** The assign function of a struct entry: the field gets a copy of value, made by marshalling it and
      reading it into the cleared old struct or a fresh one. Without memory for that struct or for the
      buffer the field is freed. */
  method AssignStruct(sch: Schema, c: Codec, e: Entry, f: Field, value: Msg, structGood: bool, bufferGood: bool)
    returns (ok: bool, g: Field)
    requires WellFormed(sch) && Sound(c) && e.kind.KStruct? && e.kind.refname in sch && !e.isArray
    requires f.isSet ==> |f.items| == 1 && TypedValue(sch, e, f.items[0])
    requires Typed(sch, sch[e.kind.refname], value) && Marshallable(sch, sch[e.kind.refname], value)
    ensures ok <==> bufferGood && (f.isSet || structGood)
    ensures !ok ==> g == Field(false, [])
    ensures ok ==> g.isSet && ViewField(g) == Field(true, [VStruct(Sent(sch, sch[e.kind.refname], value))])
    ensures ok ==> (ViewField(g) == Field(true, [VStruct(View(value))]) <==> Complete(sch, sch[e.kind.refname], value))
  {
    hide *;
    if !bufferGood || (!f.isSet && !structGood) { return false, Field(false, []); }
    var es := sch[e.kind.refname];
    SchemaEntry(sch, e, f);
    var into := if f.isSet then Clear(es, f.items[0].m) else Fresh(es);
    var tmp := new EvBuffer([]);
    MarshalInto(tmp, sch, c, es, value);
    assert tmp.frames == Marshal(sch, c, es, value);
    var m;
    ok, m := UnmarshalFrom(tmp, sch, c, es, into);
    if f.isSet { CopyIsExact(sch, c, es, f.items[0].m, value); }
    else { RoundTrip(sch, c, es, value); SentIsSeen(sch, es, value); }
    SentIffComplete(sch, es, value);
    g := Field(true, [VStruct(m)]);
    ViewOfStruct(m);
  }

  lemma ViewOfStruct(m: Msg)
    ensures ViewField(Field(true, [VStruct(m)])) == Field(true, [VStruct(View(m))])
  {
  }

  lemma SchemaEntry(sch: Schema, e: Entry, f: Field)
    requires WellFormed(sch) && e.kind.KStruct? && e.kind.refname in sch
    requires f.isSet ==> |f.items| == 1 && TypedValue(sch, e, f.items[0])
    ensures WellFormedStruct(sch, sch[e.kind.refname])
    ensures |Fresh(sch[e.kind.refname]).fields| == |sch[e.kind.refname]|
    ensures f.isSet ==> f.items[0].VStruct? && Typed(sch, sch[e.kind.refname], f.items[0].m)
    ensures f.isSet ==> |f.items[0].m.fields| == |sch[e.kind.refname]|
    ensures f.isSet ==> |Clear(sch[e.kind.refname], f.items[0].m).fields| == |sch[e.kind.refname]|
  {
  }
}
