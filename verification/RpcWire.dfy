/** The meaning of the C code event_rpcgen.py emits: marshalling a struct into tagged frames,
    reading the frames back, and what a schema accepts. */
module RpcWire {
  import opened Machine

  // ---------- Schemas and messages ----------

  datatype Kind = KInt | KInt64 | KBytes(length: nat) | KVarBytes | KString | KStruct(refname: string)

  datatype Entry = Entry(name: string, tag: nat, kind: Kind, optional: bool, isArray: bool)

  type Schema = map<string, seq<Entry>>

  predicate Legal(e: Entry) {
    e.isArray ==> !e.optional && !e.kind.KBytes? && !e.kind.KVarBytes?
  }

  predicate DistinctTags(es: seq<Entry>) {
    forall i, j :: 0 <= i < j < |es| ==> es[i].tag != es[j].tag
  }

  /** What the generator guarantees (legal entries, distinct tags) and the C compiler demands
      (structs that are referred to exist). */
  ghost predicate WellFormed(sch: Schema) {
    forall s :: s in sch ==> WellFormedStruct(sch, sch[s])
  }

  ghost predicate WellFormedStruct(sch: Schema, es: seq<Entry>) {
    DistinctTags(es) && forall e :: e in es ==> Legal(e) && (e.kind.KStruct? ==> e.kind.refname in sch)
  }

  /** A struct instance: per entry the _set flag and the data, one item for a scalar that has data,
      all the elements for an array. An unset scalar may still hold an old item. */
  datatype Msg = Msg(fields: seq<Field>)
  datatype Field = Field(isSet: bool, items: seq<Value>)
  datatype Value = VInt(n: nat) | VBytes(b: Bytes) | VStruct(m: Msg)

  ghost predicate Typed(sch: Schema, es: seq<Entry>, m: Msg)
    requires WellFormed(sch) && WellFormedStruct(sch, es)
    decreases m
  {
    |m.fields| == |es| && forall i :: 0 <= i < |es| ==>
      var e, f := es[i], m.fields[i];
      && (if e.isArray then f.isSet <==> f.items != [] else |f.items| <= 1 && (f.isSet ==> |f.items| == 1))
      && forall v :: v in f.items ==> TypedValue(sch, e, v)
  }

  ghost predicate TypedValue(sch: Schema, e: Entry, v: Value)
    requires WellFormed(sch) && (e.kind.KStruct? ==> e.kind.refname in sch)
    decreases v
  {
    match e.kind
    case KInt => v.VInt? && v.n < 0x1_0000_0000
    case KInt64 => v.VInt? && v.n < 0x1_0000_0000_0000_0000
    case KBytes(n) => v.VBytes? && |v.b| == n
    case KVarBytes => v.VBytes?
    case KString => v.VBytes? && 0 !in v.b
    case KStruct(r) => v.VStruct? && Typed(sch, sch[r], v.m)
  }

  /** X_complete: all that is required is there, and so on down. */
  ghost predicate Complete(sch: Schema, es: seq<Entry>, m: Msg)
    requires WellFormed(sch) && WellFormedStruct(sch, es)
    decreases m
  {
    |m.fields| == |es| && forall i :: 0 <= i < |es| ==> CompleteField(sch, es[i], m.fields[i])
  }

  ghost predicate CompleteField(sch: Schema, e: Entry, f: Field)
    requires WellFormed(sch) && (e.kind.KStruct? ==> e.kind.refname in sch)
    decreases f
  {
    && (e.optional || e.isArray || f.isSet)
    && (f.isSet && e.kind.KStruct? ==> forall v :: v in f.items && v.VStruct? ==> Complete(sch, sch[e.kind.refname], v.m))
  }

  /** X_marshal writes this entry: a set one, an array, and a required one whether it is set or not. */
  predicate Writes(e: Entry, f: Field) {
    e.isArray || f.isSet || !e.optional
  }

  /** An unset required entry without data is written as what its storage was initialized to. */
  predicate WritesDefault(e: Entry, f: Field) {
    Writes(e, f) && !e.isArray && f.items == []
  }

  /** What X_marshal demands of its caller: it follows the pointer of a string or struct it writes. */
  ghost predicate Marshallable(sch: Schema, es: seq<Entry>, m: Msg)
    requires WellFormed(sch) && WellFormedStruct(sch, es)
    decreases m
  {
    |m.fields| == |es| && forall i :: 0 <= i < |es| ==> MarshallableField(sch, es[i], m.fields[i])
  }

  ghost predicate MarshallableField(sch: Schema, e: Entry, f: Field)
    requires WellFormed(sch) && (e.kind.KStruct? ==> e.kind.refname in sch)
    decreases f
  {
    && (WritesDefault(e, f) ==> !e.kind.KString? && !e.kind.KStruct?)
    && (Writes(e, f) && e.kind.KStruct? ==>
      forall v :: v in f.items && v.VStruct? ==> Marshallable(sch, sch[e.kind.refname], v.m))
  }

  /** What a message says: the data of what is set. */
  function View(m: Msg): Msg {
    Msg(seq(|m.fields|, i requires 0 <= i < |m.fields| => ViewField(m.fields[i])))
  }

  function ViewField(f: Field): Field {
    Field(f.isSet, if f.isSet then seq(|f.items|, i requires 0 <= i < |f.items| => ViewValue(f.items[i])) else [])
  }

  function ViewValue(v: Value): Value {
    if v.VStruct? then VStruct(View(v.m)) else v
  }

  function Default(k: Kind): Value {
    match k
    case KInt | KInt64 => VInt(0)
    case KBytes(n) => VBytes(seq(n, _ => 0))
    case _ => VBytes([])
  }

  /** What the frames of a message say. */
  ghost function Sent(sch: Schema, es: seq<Entry>, m: Msg): Msg
    requires WellFormed(sch) && WellFormedStruct(sch, es) && |m.fields| == |es|
    decreases m
  {
    Msg(seq(|es|, i requires 0 <= i < |es| => SentField(sch, es[i], m.fields[i])))
  }

  ghost function SentField(sch: Schema, e: Entry, f: Field): Field
    requires WellFormed(sch) && (e.kind.KStruct? ==> e.kind.refname in sch)
    decreases f
  {
    if WritesDefault(e, f) then Field(true, [Default(e.kind)])
    else if !Writes(e, f) || f.items == [] then Field(false, [])
    else Field(true, seq(|f.items|, i requires 0 <= i < |f.items| => SentValue(sch, e, f.items[i])))
  }

  ghost function SentValue(sch: Schema, e: Entry, v: Value): Value
    requires WellFormed(sch) && (e.kind.KStruct? ==> e.kind.refname in sch)
    decreases v
  {
    if e.kind.KStruct? && v.VStruct? && |v.m.fields| == |sch[e.kind.refname]| then
      VStruct(Sent(sch, sch[e.kind.refname], v.m))
    else v
  }

  // ---------- The wire ----------

  datatype Frame = Frame(tag: nat, payload: Bytes)

  function Weight(fs: seq<Frame>): nat {
    if fs == [] then 0 else |fs[0].payload| + 1 + Weight(fs[1..])
  }

  /** The evtag primitives: integers and whole buffers of frames, to and from bytes. */
  datatype Codec = Codec(encInt: nat -> Bytes, decInt: Bytes -> Option<nat>,
                         encInt64: nat -> Bytes, decInt64: Bytes -> Option<nat>,
                         encFrames: seq<Frame> -> Bytes, decFrames: Bytes -> Option<seq<Frame>>)

  /** Decoding undoes encoding, and a frame takes more room than its payload. */
  ghost predicate Sound(c: Codec) {
    && (forall n: nat :: n < 0x1_0000_0000 ==> c.decInt(c.encInt(n)) == Some(n))
    && (forall n: nat :: n < 0x1_0000_0000_0000_0000 ==> c.decInt64(c.encInt64(n)) == Some(n))
    && (forall fs :: c.decFrames(c.encFrames(fs)) == Some(fs))
    && (forall b :: c.decInt(b).Some? ==> c.decInt(b).value < 0x1_0000_0000)
    && (forall b :: c.decInt64(b).Some? ==> c.decInt64(b).value < 0x1_0000_0000_0000_0000)
    && (forall b :: c.decFrames(b).Some? ==> Weight(c.decFrames(b).value) <= |b|)
  }

  // ---------- Marshalling ----------

  ghost predicate ValueOk(sch: Schema, e: Entry, v: Value)
    requires WellFormed(sch) && (e.kind.KStruct? ==> e.kind.refname in sch)
  {
    TypedValue(sch, e, v) && (e.kind.KStruct? && v.VStruct? ==> Marshallable(sch, sch[e.kind.refname], v.m))
  }

  ghost predicate ItemsOk(sch: Schema, e: Entry, items: seq<Value>)
    requires WellFormed(sch) && (e.kind.KStruct? ==> e.kind.refname in sch)
  {
    forall v :: v in items ==> ValueOk(sch, e, v)
  }

  ghost predicate FieldOk(sch: Schema, e: Entry, f: Field)
    requires WellFormed(sch) && (e.kind.KStruct? ==> e.kind.refname in sch)
  {
    Writes(e, f) ==> ItemsOk(sch, e, f.items)
  }

  /** X_marshal: the entries in order, an array as one frame per element. */
  ghost function Marshal(sch: Schema, c: Codec, es: seq<Entry>, m: Msg): seq<Frame>
    requires WellFormed(sch) && WellFormedStruct(sch, es) && Typed(sch, es, m) && Marshallable(sch, es, m)
    decreases m, 2, 0
  {
    MarshalUpTo(sch, c, es, m, |es|)
  }

  ghost function MarshalUpTo(sch: Schema, c: Codec, es: seq<Entry>, m: Msg, n: nat): seq<Frame>
    requires WellFormed(sch) && WellFormedStruct(sch, es) && Typed(sch, es, m) && Marshallable(sch, es, m) && n <= |es|
    decreases m, 1, n
  {
    if n == 0 then []
    else
      assert MarshallableField(sch, es[n - 1], m.fields[n - 1]);
      MarshalUpTo(sch, c, es, m, n - 1) + MarshalField(sch, c, es[n - 1], m.fields[n - 1])
  }

  ghost function MarshalField(sch: Schema, c: Codec, e: Entry, f: Field): seq<Frame>
    requires WellFormed(sch) && (e.kind.KStruct? ==> e.kind.refname in sch) && FieldOk(sch, e, f)
    decreases f, 0, 0
  {
    if WritesDefault(e, f) then [Frame(e.tag, EncDefault(c, e.kind))]
    else if Writes(e, f) then MarshalItems(sch, c, e, f.items)
    else []
  }

  function EncDefault(c: Codec, k: Kind): Bytes {
    match k
    case KInt => c.encInt(0)
    case KInt64 => c.encInt64(0)
    case KBytes(n) => seq(n, _ => 0)
    case _ => []
  }

  ghost function MarshalItems(sch: Schema, c: Codec, e: Entry, items: seq<Value>): (fs: seq<Frame>)
    requires WellFormed(sch) && (e.kind.KStruct? ==> e.kind.refname in sch) && ItemsOk(sch, e, items)
    decreases items, 0, 0
  {
    if items == [] then []
    else [Frame(e.tag, EncValue(sch, c, e, items[0]))] + MarshalItems(sch, c, e, items[1..])
  }

  ghost function EncValue(sch: Schema, c: Codec, e: Entry, v: Value): Bytes
    requires WellFormed(sch) && (e.kind.KStruct? ==> e.kind.refname in sch) && ValueOk(sch, e, v)
    decreases v, 0, 0
  {
    match e.kind
    case KInt => c.encInt(v.n)
    case KInt64 => c.encInt64(v.n)
    case KBytes(_) | KVarBytes | KString => v.b
    case KStruct(r) => c.encFrames(Marshal(sch, c, sch[r], v.m))
  }

  // ---------- Unmarshalling ----------

  function Fresh(es: seq<Entry>): Msg {
    Msg(seq(|es|, _ => Field(false, [])))
  }

  /** A struct into which nothing has been read yet; scalars may still hold old data. */
  ghost predicate Blank(es: seq<Entry>, m: Msg) {
    |m.fields| == |es| && forall i :: 0 <= i < |es| ==> !m.fields[i].isSet && (es[i].isArray ==> m.fields[i].items == [])
  }

  /** The entry a frame's tag selects in the generated switch. */
  function Select(es: seq<Entry>, tag: nat): (i: nat)
    ensures i <= |es| && (i < |es| ==> es[i].tag == tag)
    ensures i == |es| ==> forall j :: 0 <= j < |es| ==> es[j].tag != tag
  {
    if es == [] then 0 else if es[0].tag == tag then 0 else 1 + Select(es[1..], tag)
  }

  /** X_unmarshal: drains the frames, then demands completeness. */
  ghost function Unmarshal(sch: Schema, c: Codec, es: seq<Entry>, m: Msg, fs: seq<Frame>): (r: Option<Msg>)
    requires WellFormed(sch) && WellFormedStruct(sch, es) && Sound(c) && |m.fields| == |es|
    ensures r.Some? ==> Complete(sch, es, r.value)
    decreases Weight(fs), 1
  {
    if fs == [] then
      if Complete(sch, es, m) then Some(m) else None
    else
      var i := Select(es, fs[0].tag);
      if i == |es| || (!es[i].isArray && m.fields[i].isSet) then None
      else
        match DecValue(sch, c, es[i], fs[0].payload)
        case None => None
        case Some(v) => Unmarshal(sch, c, es, Store(es, m, i, v), fs[1..])
  }

  function Store(es: seq<Entry>, m: Msg, i: nat, v: Value): Msg
    requires i < |es| == |m.fields|
  {
    Msg(m.fields[i := Field(true, if es[i].isArray then m.fields[i].items + [v] else [v])])
  }

  ghost function DecValue(sch: Schema, c: Codec, e: Entry, b: Bytes): Option<Value>
    requires WellFormed(sch) && (e.kind.KStruct? ==> e.kind.refname in sch) && Sound(c)
    decreases |b|, 2
  {
    match e.kind
    case KInt => (match c.decInt(b) case Some(n) => Some(VInt(n)) case None => None)
    case KInt64 => (match c.decInt64(b) case Some(n) => Some(VInt(n)) case None => None)
    case KBytes(n) => if |b| == n then Some(VBytes(b)) else None
    case KVarBytes => Some(VBytes(b))
    case KString => Some(VBytes(CString(b)))
    case KStruct(r) =>
      match c.decFrames(b)
      case None => None
      case Some(fs) =>
        match Unmarshal(sch, c, sch[r], Fresh(sch[r]), fs)
        case None => None
        case Some(m) => Some(VStruct(m))
  }
}
