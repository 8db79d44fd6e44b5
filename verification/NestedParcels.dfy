/** Values of structured types: parcelables inside parcelables, unions and lists, each side with its own
    release of every type. */
module NestedParcels {
  import opened Basics
  import opened Parcel
  import opened WireFormat

  /** What a member line declares: a type of the platform, a parcelable or union by name, or a list. */
  datatype Type<+P> = Base(p: P) | Ref(name: string, nullable: bool) | List(elem: Type<P>)

  /** The fields of a parcelable, or the arms of a union. */
  datatype Shape<+P> = Fields(types: seq<Type<P>>) | Arms(types: seq<Type<P>>)

  datatype Value<+V> =
    | Leaf(v: V)
    | Absent
    | Object(fields: seq<Value<V>>)
    | Choice(tag: nat, value: Value<V>)
    | Items(elems: seq<Value<V>>)

  /** What one side was built against: the shape of every declared type, and what new variables hold. */
  datatype Release<!P, !V> = Release(shapes: map<string, Shape<P>>, zero: P -> V, blank: string -> Value<V>)

  function Blank<P, V>(rel: Release<P, V>, t: Type<P>): Value<V> {
    match t
    case Base(p) => Leaf(rel.zero(p))
    case Ref(q, nullable) => if nullable then Absent else rel.blank(q)
    case List(_) => Items([])
  }

  // ---- writing ------------------------------------------------------------

  /** A reference is announced by a marker, 0 for an absent one; a parcelable is a record, a union a tag
      and one value, a list a count and its elements. */
  function Encode<P, V>(c: Codec<P, V>, rel: Release<P, V>, t: Type<P>, v: Value<V>): Option<Bytes>
    decreases v, 1, 0
  {
    match t
    case Base(p) => if v.Leaf? then c.write(p, v.v) else None
    case List(e) => if v.Items? then Ahead(EncodeInt32(|v.elems|), EncodeItems(c, rel, e, v, 0)) else None
    case Ref(q, nullable) =>
      if v.Absent? then if nullable then Some(EncodeInt32(0)) else None
      else Ahead(EncodeInt32(1), EncodeNamed(c, rel, q, v))
  }

  function EncodeNamed<P, V>(c: Codec<P, V>, rel: Release<P, V>, q: string, v: Value<V>): Option<Bytes>
    decreases v, 0, |rel.shapes|
  {
    if q !in rel.shapes then None
    else
      match rel.shapes[q]
      case Fields(types) =>
        if v.Object? && |v.fields| == |types| then
          match EncodeFields(c, rel, types, v, 0)
          case None => None
          case Some(body) => Some(Record(body))
        else None
      case Arms(types) =>
        if v.Choice? && v.tag < |types| && v.tag < 0x8000_0000 then Ahead(EncodeInt32(v.tag), Encode(c, rel, types[v.tag], v.value))
        else None
  }

  function EncodeFields<P, V>(c: Codec<P, V>, rel: Release<P, V>, types: seq<Type<P>>, v: Value<V>, i: nat): Option<Bytes>
    requires v.Object? && i <= |types| == |v.fields|
    decreases v, 0, 0, |types| - i
  {
    if i == |types| then Some([])
    else
      match Encode(c, rel, types[i], v.fields[i])
      case None => None
      case Some(f) => Ahead(f, EncodeFields(c, rel, types, v, i + 1))
  }

  function EncodeItems<P, V>(c: Codec<P, V>, rel: Release<P, V>, e: Type<P>, v: Value<V>, i: nat): Option<Bytes>
    requires v.Items? && i <= |v.elems|
    decreases v, 0, 0, |v.elems| - i
  {
    if i == |v.elems| then Some([])
    else
      match Encode(c, rel, e, v.elems[i])
      case None => None
      case Some(f) => Ahead(f, EncodeItems(c, rel, e, v, i + 1))
  }

  // ---- reading ------------------------------------------------------------

  function Moved<V>(r: FieldRead<V>, n: nat): FieldRead<V> {
    match r
    case Failed(f) => Failed(f)
    case Got(v, used) => Got(v, n + used)
  }

  /** Reads a value of type `t` from the front of `b` into a variable that holds `u`. */
  function Decode<P, V>(c: Codec<P, V>, rel: Release<P, V>, t: Type<P>, b: Bytes, u: Value<V>): FieldRead<Value<V>>
    decreases |b|, 1, 0
  {
    match t
    case Base(p) =>
      (match c.read(p, b, if u.Leaf? then u.v else rel.zero(p))
       case Failed(f) => Failed(f)
       case Got(x, used) => Got(Leaf(x), used))
    case List(e) =>
      if |b| < 4 then Failed(NotEnoughData)
      else
        var n := DecodeInt32(b[..4]);
        if n < 0 then Failed(UnexpectedNull) else AsItems(DecodeItems(c, rel, e, b, 4, n))
    case Ref(q, nullable) =>
      if |b| < 4 then Failed(NotEnoughData)
      else if DecodeInt32(b[..4]) == 0 then if nullable then Got(Absent, 4) else Failed(UnexpectedNull)
      else Moved(DecodeNamed(c, rel, q, b[4..], if nullable then rel.blank(q) else u), 4)
  }

  /** A parcelable is read over the object there is; a union gets a new value. */
  function DecodeNamed<P, V>(c: Codec<P, V>, rel: Release<P, V>, q: string, b: Bytes, u: Value<V>): FieldRead<Value<V>>
    decreases |b|, 2, 0
  {
    if q !in rel.shapes then Failed(BadValue)
    else if |b| < 4 then Failed(NotEnoughData)
    else
      var n := DecodeInt32(b[..4]);
      match rel.shapes[q]
      case Fields(types) =>
        if n < 4 || !u.Object? || |u.fields| != |types| then Failed(BadValue)
        else
          var r := DecodeFields(c, rel, types, b, n, 0, 4, u.fields);
          if r.status == Ok then Got(Object(r.fields), r.pos) else Failed(r.status.fault)
      case Arms(types) =>
        if n < 0 || n >= |types| then Failed(BadValue)
        else
          match Decode(c, rel, types[n], b[4..], Blank(rel, types[n]))
          case Failed(f) => Failed(f)
          case Got(x, used) => Got(Choice(n, x), 4 + used)
  }

  /** The fields of the record at the front of `b`, from the `i`-th on. */
  function DecodeFields<P, V>(c: Codec<P, V>, rel: Release<P, V>, types: seq<Type<P>>, b: Bytes, size: nat,
                              i: nat, pos: nat, fields: seq<Value<V>>): ReadResult<Value<V>>
    requires i <= |types| == |fields| && 4 <= pos && 4 <= |b|
    decreases |b|, 0, |types| - i
  {
    if i == |types| || pos >= size then ReadResult(Ok, size, fields)
    else
      match Decode(c, rel, types[i], Suffix(b, pos), fields[i])
      case Failed(f) => ReadResult(Err(f), pos, fields)
      case Got(v, used) => DecodeFields(c, rel, types, b, size, i + 1, pos + used, fields[i := v])
  }

  function AsItems<V>(r: FieldRead<seq<Value<V>>>): FieldRead<Value<V>> {
    match r
    case Failed(f) => Failed(f)
    case Got(elems, end) => Got(Items(elems), end)
  }

  function DecodeItems<P, V>(c: Codec<P, V>, rel: Release<P, V>, e: Type<P>, b: Bytes, pos: nat, n: nat): FieldRead<seq<Value<V>>>
    requires 4 <= pos && 4 <= |b|
    decreases |b|, 0, n
  {
    if n == 0 then Got([], pos)
    else
      match Decode(c, rel, e, Suffix(b, pos), Blank(rel, e))
      case Failed(f) => Failed(f)
      case Got(v, used) => Cons(v, DecodeItems(c, rel, e, b, pos + used, n - 1))
  }

  /** The encoding of structured types under one release. */
  function CodecOf<P, V>(c: Codec<P, V>, rel: Release<P, V>): Codec<Type<P>, Value<V>> {
    Codec((t: Type<P>, v: Value<V>) => Encode(c, rel, t, v),
          (t: Type<P>, b: Bytes, u: Value<V>) => Decode(c, rel, t, b, u))
  }

  /** Nested parcelables are written and read as records like any other. */
  lemma {:induction false} FieldsAreBody<P, V>(c: Codec<P, V>, rel: Release<P, V>, types: seq<Type<P>>, v: Value<V>, i: nat)
    requires v.Object? && i <= |types| == |v.fields|
    ensures EncodeFields(c, rel, types, v, i) == BodyFrom(CodecOf(c, rel), types, v.fields, i)
    decreases |types| - i
  {
    if i < |types| {
      FieldsAreBody(c, rel, types, v, i + 1);
    }
  }

  lemma {:induction false} DecodeOneField<P, V>(c: Codec<P, V>, rel: Release<P, V>, types: seq<Type<P>>, b: Bytes, size: nat,
                                                i: nat, pos: nat, fields: seq<Value<V>>)
    requires i < |types| == |fields| && 4 <= pos < size && 4 <= |b|
    ensures DecodeFields(c, rel, types, b, size, i, pos, fields) ==
      match Decode(c, rel, types[i], Suffix(b, pos), fields[i])
      case Failed(f) => ReadResult(Err(f), pos, fields)
      case Got(v, used) => DecodeFields(c, rel, types, b, size, i + 1, pos + used, fields[i := v])
  {
  }

  lemma {:induction false} FieldsAreRead<P, V>(c: Codec<P, V>, rel: Release<P, V>, types: seq<Type<P>>, b: Bytes, size: nat,
                                               i: nat, pos: nat, fields: seq<Value<V>>)
    requires i <= |types| == |fields| && 4 <= pos && 4 <= |b|
    ensures DecodeFields(c, rel, types, b, size, i, pos, fields) == ReadFields(CodecOf(c, rel), types, b, 0, size, i, pos, fields)
    decreases |types| - i
  {
    if i < |types| && pos < size {
      DecodeOneField(c, rel, types, b, size, i, pos, fields);
      ReadOneField(CodecOf(c, rel), types, b, 0, size, i, pos, fields);
      match Decode(c, rel, types[i], Suffix(b, pos), fields[i])
      case Failed(f) =>
      case Got(v, used) => FieldsAreRead(c, rel, types, b, size, i + 1, pos + used, fields[i := v]);
    }
  }

  lemma {:induction false} RecordIsRead<P, V>(c: Codec<P, V>, rel: Release<P, V>, q: string, types: seq<Type<P>>, b: Bytes, u: Value<V>)
    requires q in rel.shapes && rel.shapes[q] == Fields(types) && u.Object? && |u.fields| == |types|
    ensures var r := ReadRecord(CodecOf(c, rel), types, b, 0, u.fields);
      DecodeNamed(c, rel, q, b, u) == if r.status == Ok then Got(Object(r.fields), r.pos) else Failed(r.status.fault)
  {
    assert Suffix(b, 0) == b;
    if |b| >= 4 && DecodeInt32(b[..4]) >= 4 {
      FieldsAreRead(c, rel, types, b, DecodeInt32(b[..4]), 0, 4, u.fields);
    }
  }

  // ---- what arrives -------------------------------------------------------

  /** What a reader of release `rel` holds after reading `v` into a variable that held `u`: at every
      level the fields it knows arrive, and the fields the writer did not know stay as they were. */
  function Convert<P, V>(rel: Release<P, V>, t: Type<P>, v: Value<V>, u: Value<V>): Value<V>
    decreases v, 1
  {
    match t
    case Base(_) => v
    case Ref(q, nullable) => if v.Absent? then v else ConvertNamed(rel, q, v, if nullable then rel.blank(q) else u)
    case List(e) =>
      if v.Items? then Items(seq(|v.elems|, i requires 0 <= i < |v.elems| => Convert(rel, e, v.elems[i], Blank(rel, e)))) else v
  }

  function ConvertNamed<P, V>(rel: Release<P, V>, q: string, v: Value<V>, u: Value<V>): Value<V>
    decreases v, 0
  {
    if q !in rel.shapes then v
    else
      match rel.shapes[q]
      case Fields(types) =>
        if v.Object? && u.Object? && |u.fields| == |types| then
          Object(seq(|types|, i requires 0 <= i < |types| =>
            if i < |v.fields| then Convert(rel, types[i], v.fields[i], u.fields[i]) else u.fields[i]))
        else v
      case Arms(types) =>
        if v.Choice? && v.tag < |types| then Choice(v.tag, Convert(rel, types[v.tag], v.value, Blank(rel, types[v.tag]))) else v
  }

  /** `v` is a value of type `t` as this release declares it. */
  predicate Fits<P, V>(rel: Release<P, V>, t: Type<P>, v: Value<V>)
    decreases v, 1
  {
    match t
    case Base(_) => v.Leaf?
    case Ref(q, nullable) => if v.Absent? then nullable else FitsNamed(rel, q, v)
    case List(e) => v.Items? && forall i :: 0 <= i < |v.elems| ==> Fits(rel, e, v.elems[i])
  }

  predicate FitsNamed<P, V>(rel: Release<P, V>, q: string, v: Value<V>)
    decreases v, 0
  {
    q in rel.shapes &&
    match rel.shapes[q]
    case Fields(types) => v.Object? && |v.fields| == |types| && forall i :: 0 <= i < |types| ==> Fits(rel, types[i], v.fields[i])
    case Arms(types) => v.Choice? && v.tag < |types| && Fits(rel, types[v.tag], v.value)
  }

  /** New objects are values of their types. */
  ghost predicate SoundBlanks<P, V>(rel: Release<P, V>) {
    forall q :: q in rel.shapes ==> FitsNamed(rel, q, rel.blank(q))
  }

  predicate Known<P, V>(rel: Release<P, V>, t: Type<P>) {
    match t
    case Base(_) => true
    case Ref(q, _) => q in rel.shapes
    case List(e) => Known(rel, e)
  }

  lemma {:induction false} BlankFits<P(!new), V(!new)>(rel: Release<P, V>, t: Type<P>)
    requires SoundBlanks(rel) && Known(rel, t)
    ensures Fits(rel, t, Blank(rel, t))
  {
  }

  // ---- two releases -------------------------------------------------------

  /** Every type both sides declare is a parcelable whose fields on one side begin with those on the
      other, or a union with the same arms; and both sides know the types of what they share. */
  ghost predicate Related<P, V>(wr: Release<P, V>, rd: Release<P, V>) {
    forall q :: q in wr.shapes && q in rd.shapes ==> ShapesMeet(wr, rd, wr.shapes[q], rd.shapes[q])
  }

  ghost predicate ShapesMeet<P, V>(wr: Release<P, V>, rd: Release<P, V>, a: Shape<P>, b: Shape<P>) {
    && (if a.Fields? then b.Fields? && Comparable(a.types, b.types) else b == a)
    && forall i :: 0 <= i < |a.types| && i < |b.types| ==> Known(wr, a.types[i]) && Known(rd, a.types[i])
  }

  lemma {:induction false} NotNothing<P(!new), V(!new)>(c: Codec<P, V>, rel: Release<P, V>, t: Type<P>, v: Value<V>)
    requires Lawful(c) && Encode(c, rel, t, v).Some?
    ensures Encode(c, rel, t, v).value != []
  {
    if t.Base? {
      assert RoundTrips(c, t.p, v.v);
      assert Conveyed(c, c, t.p, v.v, v.v, v.v);
    }
  }

  /** What is sent: it can be written, and with fewer than 2^31 bytes. */
  ghost predicate Sendable<P, V>(c: Codec<P, V>, rel: Release<P, V>, t: Type<P>, v: Value<V>) {
    Encode(c, rel, t, v).Some? && |Encode(c, rel, t, v).value| < 0x8000_0000
  }

  lemma {:induction false} FrontInt32(n: int, rest: Bytes)
    requires -0x8000_0000 <= n < 0x8000_0000
    ensures var b := EncodeInt32(n) + rest; |b| >= 4 && DecodeInt32(b[..4]) == n && b[4..] == rest
  {
    Int32RoundTrip(n);
    assert (EncodeInt32(n) + rest)[..4] == EncodeInt32(n);
  }

  /** Whatever one release writes, a related one reads, whatever follows: it ends where the writer
      ended, and holds what it can know. */
  lemma {:induction false} DecodesBack<P(!new), V(!new)>(c: Codec<P, V>, wr: Release<P, V>, rd: Release<P, V>, t: Type<P>,
                                                         v: Value<V>, u: Value<V>, rest: Bytes)
    requires Lawful(c) && Related(wr, rd) && SoundBlanks(rd) && Known(wr, t) && Known(rd, t)
    requires Fits(rd, t, u) && Sendable(c, wr, t, v)
    ensures var w := Encode(c, wr, t, v).value; Decode(c, rd, t, w + rest, u) == Got(Convert(rd, t, v, u), |w|)
    decreases v, 2
  {
    match t
    case Base(p) =>
      assert RoundTrips(c, p, v.v);
      assert Conveyed(c, c, p, v.v, u.v, v.v);
    case List(e) =>
      ListDecodesBack(c, wr, rd, e, v, u, rest);
    case Ref(q, nullable) =>
      if v.Absent? {
        FrontInt32(0, rest);
      } else {
        RefDecodesBack(c, wr, rd, q, nullable, v, u, rest);
      }
  }

  lemma {:induction false} RefDecodesBack<P(!new), V(!new)>(c: Codec<P, V>, wr: Release<P, V>, rd: Release<P, V>, q: string, nullable: bool,
                                                            v: Value<V>, u: Value<V>, rest: Bytes)
    requires Lawful(c) && Related(wr, rd) && SoundBlanks(rd) && q in wr.shapes && q in rd.shapes
    requires Fits(rd, Ref(q, nullable), u) && !v.Absent? && Sendable(c, wr, Ref(q, nullable), v)
    ensures var w := Encode(c, wr, Ref(q, nullable), v).value;
      Decode(c, rd, Ref(q, nullable), w + rest, u) == Got(Convert(rd, Ref(q, nullable), v, u), |w|)
    decreases v, 1
  {
    var into := if nullable then rd.blank(q) else u;
    var n := EncodeNamed(c, wr, q, v).value;
    assert Encode(c, wr, Ref(q, nullable), v).value == EncodeInt32(1) + n;
    NamedDecodesBack(c, wr, rd, q, v, into, rest);
    Regroup(EncodeInt32(1), n, rest);
    FrontInt32(1, n + rest);
  }

  lemma {:induction false} NamedDecodesBack<P(!new), V(!new)>(c: Codec<P, V>, wr: Release<P, V>, rd: Release<P, V>, q: string,
                                                              v: Value<V>, u: Value<V>, rest: Bytes)
    requires Lawful(c) && Related(wr, rd) && SoundBlanks(rd) && q in wr.shapes && q in rd.shapes && FitsNamed(rd, q, u)
    requires EncodeNamed(c, wr, q, v).Some? && |EncodeNamed(c, wr, q, v).value| < 0x8000_0000
    ensures var w := EncodeNamed(c, wr, q, v).value; DecodeNamed(c, rd, q, w + rest, u) == Got(ConvertNamed(rd, q, v, u), |w|)
    decreases v, 0, 2
  {
    assert ShapesMeet(wr, rd, wr.shapes[q], rd.shapes[q]);
    match wr.shapes[q]
    case Fields(types) =>
      ObjectDecodesBack(c, wr, rd, q, v, u, rest);
    case Arms(types) =>
      var x := Encode(c, wr, types[v.tag], v.value).value;
      var blank := Blank(rd, types[v.tag]);
      BlankFits(rd, types[v.tag]);
      DecodesBack(c, wr, rd, types[v.tag], v.value, blank, rest);
      Regroup(EncodeInt32(v.tag), x, rest);
      FrontInt32(v.tag, x + rest);
  }

  lemma {:induction false} ObjectDecodesBack<P(!new), V(!new)>(c: Codec<P, V>, wr: Release<P, V>, rd: Release<P, V>, q: string,
                                                               v: Value<V>, u: Value<V>, rest: Bytes)
    requires Lawful(c) && Related(wr, rd) && SoundBlanks(rd) && q in wr.shapes && q in rd.shapes && FitsNamed(rd, q, u)
    requires wr.shapes[q].Fields? && EncodeNamed(c, wr, q, v).Some? && |EncodeNamed(c, wr, q, v).value| < 0x8000_0000
    ensures var w := EncodeNamed(c, wr, q, v).value; DecodeNamed(c, rd, q, w + rest, u) == Got(ConvertNamed(rd, q, v, u), |w|)
    decreases v, 0, 1
  {
    assert ShapesMeet(wr, rd, wr.shapes[q], rd.shapes[q]);
    var writer, reader := wr.shapes[q].types, rd.shapes[q].types;
    var results := ConvertNamed(rd, q, v, u).fields;
    FieldsAreBody(c, wr, writer, v, 0);
    FieldsArrive(c, wr, rd, q, v, u);
    var w := EncodeNamed(c, wr, q, v).value;
    assert Suffix(w + rest, 0) == w + rest;
    RecordRoundTrip(CodecOf(c, wr), writer, v.fields, CodecOf(c, rd), reader, u.fields, results, w + rest, 0, rest);
    RecordIsRead(c, rd, q, reader, w + rest, u);
  }

  /** The fields of a parcelable that both sides know arrive, each as its own type says. */
  lemma {:induction false} FieldsArrive<P(!new), V(!new)>(c: Codec<P, V>, wr: Release<P, V>, rd: Release<P, V>, q: string, v: Value<V>, u: Value<V>)
    requires Lawful(c) && Related(wr, rd) && SoundBlanks(rd) && q in wr.shapes && q in rd.shapes && FitsNamed(rd, q, u)
    requires wr.shapes[q].Fields? && v.Object? && |v.fields| == |wr.shapes[q].types|
    requires Body(CodecOf(c, wr), wr.shapes[q].types, v.fields).Some?
    requires |Body(CodecOf(c, wr), wr.shapes[q].types, v.fields).value| < 0x8000_0000
    ensures rd.shapes[q].Fields? && Comparable(wr.shapes[q].types, rd.shapes[q].types)
    ensures u.Object? && ConvertNamed(rd, q, v, u).Object?
    ensures FieldsConveyed(CodecOf(c, wr), v.fields, CodecOf(c, rd), rd.shapes[q].types, u.fields, ConvertNamed(rd, q, v, u).fields)
    decreases v, 0, 0
  {
    assert ShapesMeet(wr, rd, wr.shapes[q], rd.shapes[q]);
    var writer, reader := wr.shapes[q].types, rd.shapes[q].types;
    var cw, cr := CodecOf(c, wr), CodecOf(c, rd);
    var results := ConvertNamed(rd, q, v, u).fields;
    forall i | 0 <= i < |reader| && i < |v.fields| ensures Conveyed(cw, cr, reader[i], v.fields[i], u.fields[i], results[i]) {
      BodyIsWritten(cw, writer, v.fields, 0, i);
      assert writer[i] == reader[i];
      Conveys(c, wr, rd, writer[i], v.fields[i], u.fields[i]);
    }
  }

  lemma {:induction false} Conveys<P(!new), V(!new)>(c: Codec<P, V>, wr: Release<P, V>, rd: Release<P, V>, t: Type<P>, v: Value<V>, u: Value<V>)
    requires Lawful(c) && Related(wr, rd) && SoundBlanks(rd) && Known(wr, t) && Known(rd, t)
    requires Fits(rd, t, u) && Sendable(c, wr, t, v)
    ensures Conveyed(CodecOf(c, wr), CodecOf(c, rd), t, v, u, Convert(rd, t, v, u))
    decreases v, 3
  {
    NotNothing(c, wr, t, v);
    var w := Encode(c, wr, t, v).value;
    forall rest ensures Decode(c, rd, t, w + rest, u) == Got(Convert(rd, t, v, u), |w|) {
      DecodesBack(c, wr, rd, t, v, u, rest);
    }
  }

  // ---- lists --------------------------------------------------------------

  lemma {:induction false} ItemsAreLong<P(!new), V(!new)>(c: Codec<P, V>, wr: Release<P, V>, e: Type<P>, v: Value<V>, i: nat)
    requires Lawful(c) && v.Items? && i <= |v.elems| && EncodeItems(c, wr, e, v, i).Some?
    ensures |EncodeItems(c, wr, e, v, i).value| >= |v.elems| - i
    decreases |v.elems| - i
  {
    if i < |v.elems| {
      NotNothing(c, wr, e, v.elems[i]);
      ItemsAreLong(c, wr, e, v, i + 1);
    }
  }

  lemma {:induction false} ItemsAreList<P, V>(c: Codec<P, V>, rel: Release<P, V>, e: Type<P>, v: Value<V>, i: nat)
    requires v.Items? && i <= |v.elems|
    ensures EncodeItems(c, rel, e, v, i) == ListFrom(CodecOf(c, rel), e, v.elems, i)
    decreases |v.elems| - i
  {
    if i < |v.elems| {
      ItemsAreList(c, rel, e, v, i + 1);
    }
  }

  lemma {:induction false} ItemDecoded<P, V>(c: Codec<P, V>, rel: Release<P, V>, e: Type<P>, b: Bytes, pos: nat, n: nat, r: FieldRead<Value<V>>)
    requires 4 <= pos && 4 <= |b| && n > 0 && r == Decode(c, rel, e, Suffix(b, pos), Blank(rel, e))
    ensures DecodeItems(c, rel, e, b, pos, n) == if r.Got? then Cons(r.value, DecodeItems(c, rel, e, b, pos + r.used, n - 1)) else Failed(r.fault)
  {
    match Decode(c, rel, e, Suffix(b, pos), Blank(rel, e))
    case Failed(_) =>
    case Got(_, _) =>
  }

  lemma {:induction false} ElementRead<T, V>(c: Codec<T, V>, e: T, blank: V, b: Bytes, pos: nat, n: nat, r: FieldRead<V>)
    requires n > 0 && r == c.read(e, Suffix(b, pos), blank)
    ensures ReadList(c, e, blank, b, pos, n) == if r.Got? then Cons(r.value, ReadList(c, e, blank, b, pos + r.used, n - 1)) else Failed(r.fault)
  {
  }

  lemma {:induction false} ItemRead<P, V>(c: Codec<P, V>, rel: Release<P, V>, e: Type<P>, b: Bytes, pos: nat, n: nat, r: FieldRead<Value<V>>)
    requires n > 0 && r == Decode(c, rel, e, Suffix(b, pos), Blank(rel, e))
    ensures var cc, blank := CodecOf(c, rel), Blank(rel, e);
      ReadList(cc, e, blank, b, pos, n) == if r.Got? then Cons(r.value, ReadList(cc, e, blank, b, pos + r.used, n - 1)) else Failed(r.fault)
  {
    ElementRead(CodecOf(c, rel), e, Blank(rel, e), b, pos, n, r);
  }

  /** From every position, `n` elements are read as the codec of the release reads them. */
  ghost predicate ReadAlike<P, V>(c: Codec<P, V>, rel: Release<P, V>, e: Type<P>, b: Bytes, n: nat) {
    4 <= |b| && forall pos :: 4 <= pos ==> DecodeItems(c, rel, e, b, pos, n) == ReadList(CodecOf(c, rel), e, Blank(rel, e), b, pos, n)
  }

  lemma {:induction false} OneMoreItem<P, V>(c: Codec<P, V>, rel: Release<P, V>, e: Type<P>, b: Bytes, pos: nat, n: nat)
    requires 4 <= pos && n > 0 && ReadAlike(c, rel, e, b, n - 1)
    ensures DecodeItems(c, rel, e, b, pos, n) == ReadList(CodecOf(c, rel), e, Blank(rel, e), b, pos, n)
  {
    var r := Decode(c, rel, e, Suffix(b, pos), Blank(rel, e));
    ItemDecoded(c, rel, e, b, pos, n, r);
    ItemRead(c, rel, e, b, pos, n, r);
  }

  lemma {:induction false} NoItems<P, V>(c: Codec<P, V>, rel: Release<P, V>, e: Type<P>, b: Bytes)
    requires 4 <= |b|
    ensures ReadAlike(c, rel, e, b, 0)
  {
  }

  lemma {:induction false} ItemsAreRead<P, V>(c: Codec<P, V>, rel: Release<P, V>, e: Type<P>, b: Bytes, n: nat)
    requires 4 <= |b|
    ensures ReadAlike(c, rel, e, b, n)
  {
    if n == 0 {
      NoItems(c, rel, e, b);
    } else {
      ItemsAreRead(c, rel, e, b, n - 1);
      forall pos: nat | 4 <= pos ensures DecodeItems(c, rel, e, b, pos, n) == ReadList(CodecOf(c, rel), e, Blank(rel, e), b, pos, n) {
        OneMoreItem(c, rel, e, b, pos, n);
      }
    }
  }

  lemma {:induction false} ListDecodesBack<P(!new), V(!new)>(c: Codec<P, V>, wr: Release<P, V>, rd: Release<P, V>, e: Type<P>,
                                                             v: Value<V>, u: Value<V>, rest: Bytes)
    requires Lawful(c) && Related(wr, rd) && SoundBlanks(rd) && Known(wr, e) && Known(rd, e) && Sendable(c, wr, List(e), v)
    ensures var w := Encode(c, wr, List(e), v).value; Decode(c, rd, List(e), w + rest, u) == Got(Convert(rd, List(e), v, u), |w|)
    decreases v, 1
  {
    var results := Convert(rd, List(e), v, u).elems;
    ItemsAreLong(c, wr, e, v, 0);
    ItemsAreList(c, wr, e, v, 0);
    forall j | 0 <= j < |v.elems| ensures Conveyed(CodecOf(c, wr), CodecOf(c, rd), e, v.elems[j], Blank(rd, e), results[j]) {
      ListIsWritten(CodecOf(c, wr), e, v.elems, 0, j);
      BlankFits(rd, e);
      Conveys(c, wr, rd, e, v.elems[j], Blank(rd, e));
    }
    ListArrives(c, wr, rd, e, v, u, results, rest);
  }

  lemma {:induction false} ListArrives<P, V>(c: Codec<P, V>, wr: Release<P, V>, rd: Release<P, V>, e: Type<P>,
                                             v: Value<V>, u: Value<V>, results: seq<Value<V>>, rest: Bytes)
    requires v.Items? && |results| == |v.elems| < 0x8000_0000 && EncodeItems(c, wr, e, v, 0).Some?
    requires forall j :: 0 <= j < |v.elems| ==> Conveyed(CodecOf(c, wr), CodecOf(c, rd), e, v.elems[j], Blank(rd, e), results[j])
    ensures var w := EncodeInt32(|v.elems|) + EncodeItems(c, wr, e, v, 0).value;
      Decode(c, rd, List(e), w + rest, u) == Got(Items(results), |w|)
  {
    var n, items := |v.elems|, EncodeItems(c, wr, e, v, 0).value;
    var b := EncodeInt32(n) + (items + rest);
    Regroup(EncodeInt32(n), items, rest);
    DecodeCount(c, rd, e, n, items + rest, u);
    ItemsArrive(c, wr, rd, e, v, results, b, rest);
  }

  lemma {:induction false} ItemsArrive<P, V>(c: Codec<P, V>, wr: Release<P, V>, rd: Release<P, V>, e: Type<P>,
                                             v: Value<V>, results: seq<Value<V>>, b: Bytes, rest: Bytes)
    requires v.Items? && |results| == |v.elems| && EncodeItems(c, wr, e, v, 0).Some?
    requires forall j :: 0 <= j < |v.elems| ==> Conveyed(CodecOf(c, wr), CodecOf(c, rd), e, v.elems[j], Blank(rd, e), results[j])
    requires |b| >= 4 && Suffix(b, 4) == EncodeItems(c, wr, e, v, 0).value + rest
    ensures DecodeItems(c, rd, e, b, 4, |v.elems|) == Got(results, 4 + |EncodeItems(c, wr, e, v, 0).value|)
  {
    ItemsAreList(c, wr, e, v, 0);
    ListReadsBack(CodecOf(c, wr), CodecOf(c, rd), e, v.elems, Blank(rd, e), results, b, 4, 0, rest);
    assert results[0..] == results;
    ItemsAreRead(c, rd, e, b, |v.elems|);
  }

  lemma {:induction false} DecodeCount<P, V>(c: Codec<P, V>, rel: Release<P, V>, e: Type<P>, n: nat, tail: Bytes, u: Value<V>)
    requires n < 0x8000_0000
    ensures var b := EncodeInt32(n) + tail;
      |b| >= 4 && Suffix(b, 4) == tail && Decode(c, rel, List(e), b, u) == AsItems(DecodeItems(c, rel, e, b, 4, n))
  {
    FrontInt32(n, tail);
  }

  // ---- one release after another ------------------------------------------

  /** Every type of `o` is still there in `n`, with fields appended at most. */
  ghost predicate Older<P, V>(o: Release<P, V>, n: Release<P, V>) {
    forall q :: q in o.shapes ==> q in n.shapes && Grown(o.shapes[q], n.shapes[q])
  }

  predicate Grown<P(==)>(a: Shape<P>, b: Shape<P>) {
    if a.Fields? then b.Fields? && a.types <= b.types else b == a
  }

  /** Every type that a declared type mentions is declared. */
  ghost predicate Complete<P, V>(rel: Release<P, V>) {
    forall q :: q in rel.shapes ==> forall i :: 0 <= i < |rel.shapes[q].types| ==> Known(rel, rel.shapes[q].types[i])
  }

  lemma {:induction false} KnownGrows<P, V>(o: Release<P, V>, n: Release<P, V>, t: Type<P>)
    requires Older(o, n) && Known(o, t)
    ensures Known(n, t)
  {
    if t.List? {
      KnownGrows(o, n, t.elem);
    }
  }

  /** An older and a newer release can read each other, if the older one is complete. */
  lemma {:induction false} OlderIsRelated<P, V>(o: Release<P, V>, n: Release<P, V>)
    requires Older(o, n) && Complete(o)
    ensures Related(o, n) && Related(n, o)
  {
    forall q | q in o.shapes && q in n.shapes
      ensures ShapesMeet(o, n, o.shapes[q], n.shapes[q]) && ShapesMeet(n, o, n.shapes[q], o.shapes[q])
    {
      var a, b := o.shapes[q].types, n.shapes[q].types;
      assert Grown(o.shapes[q], n.shapes[q]);
      forall i | 0 <= i < |a| && i < |b| ensures a[i] == b[i] && Known(o, a[i]) && Known(n, a[i]) {
        KnownGrows(o, n, a[i]);
      }
    }
  }

  /** A value is itself to a reader of the same release. */
  lemma {:induction false} ConvertSame<P(!new), V(!new)>(rel: Release<P, V>, t: Type<P>, v: Value<V>, u: Value<V>)
    requires Fits(rel, t, v) && Fits(rel, t, u) && SoundBlanks(rel) && Complete(rel) && Known(rel, t)
    ensures Convert(rel, t, v, u) == v
    decreases v, 1
  {
    match t
    case Base(_) =>
    case Ref(q, nullable) =>
      if !v.Absent? {
        NamedSame(rel, q, v, if nullable then rel.blank(q) else u);
      }
    case List(e) =>
      var r := Convert(rel, t, v, u);
      forall i | 0 <= i < |v.elems| ensures r.elems[i] == v.elems[i] {
        BlankFits(rel, e);
        ConvertSame(rel, e, v.elems[i], Blank(rel, e));
      }
      assert r.elems == v.elems;
  }

  lemma {:induction false} NamedSame<P(!new), V(!new)>(rel: Release<P, V>, q: string, v: Value<V>, u: Value<V>)
    requires FitsNamed(rel, q, v) && FitsNamed(rel, q, u) && SoundBlanks(rel) && Complete(rel)
    ensures ConvertNamed(rel, q, v, u) == v
    decreases v, 0
  {
    var types := rel.shapes[q].types;
    var r := ConvertNamed(rel, q, v, u);
    if v.Object? {
      forall i | 0 <= i < |types| ensures r.fields[i] == v.fields[i] {
        ConvertSame(rel, types[i], v.fields[i], u.fields[i]);
      }
      assert r.fields == v.fields;
    } else {
      BlankFits(rel, types[v.tag]);
      ConvertSame(rel, types[v.tag], v.value, Blank(rel, types[v.tag]));
    }
  }

  /** What a newer release received is one of its values. */
  lemma {:induction false} ConvertFits<P(!new), V(!new)>(wr: Release<P, V>, rd: Release<P, V>, t: Type<P>, v: Value<V>, u: Value<V>)
    requires Related(wr, rd) && SoundBlanks(rd) && Known(wr, t) && Known(rd, t) && Fits(wr, t, v) && Fits(rd, t, u)
    ensures Fits(rd, t, Convert(rd, t, v, u))
    decreases v, 1
  {
    match t
    case Base(_) =>
    case Ref(q, nullable) =>
      if !v.Absent? {
        NamedFits(wr, rd, q, v, if nullable then rd.blank(q) else u);
      }
    case List(e) =>
      var r := Convert(rd, t, v, u);
      forall i | 0 <= i < |r.elems| ensures Fits(rd, e, r.elems[i]) {
        BlankFits(rd, e);
        ConvertFits(wr, rd, e, v.elems[i], Blank(rd, e));
      }
  }

  lemma {:induction false} NamedFits<P(!new), V(!new)>(wr: Release<P, V>, rd: Release<P, V>, q: string, v: Value<V>, u: Value<V>)
    requires Related(wr, rd) && SoundBlanks(rd) && q in rd.shapes && FitsNamed(wr, q, v) && FitsNamed(rd, q, u)
    ensures FitsNamed(rd, q, ConvertNamed(rd, q, v, u))
    decreases v, 0
  {
    assert ShapesMeet(wr, rd, wr.shapes[q], rd.shapes[q]);
    var writer, types := wr.shapes[q].types, rd.shapes[q].types;
    var r := ConvertNamed(rd, q, v, u);
    if v.Object? {
      forall i | 0 <= i < |types| ensures Fits(rd, types[i], r.fields[i]) {
        if i < |v.fields| {
          assert writer[i] == types[i];
          ConvertFits(wr, rd, types[i], v.fields[i], u.fields[i]);
        }
      }
    } else {
      BlankFits(rd, types[v.tag]);
      ConvertFits(wr, rd, types[v.tag], v.value, Blank(rd, types[v.tag]));
    }
  }

  /** What an older release sends comes back to it unchanged from a newer one. */
  lemma {:induction false} ThereAndBack<P(!new), V(!new)>(o: Release<P, V>, n: Release<P, V>, t: Type<P>, v: Value<V>, u: Value<V>, u': Value<V>)
    requires Older(o, n) && Complete(o) && SoundBlanks(o) && SoundBlanks(n) && Known(o, t)
    requires Fits(o, t, v) && Fits(n, t, u) && Fits(o, t, u')
    ensures Convert(o, t, Convert(n, t, v, u), u') == v
    decreases v, 1
  {
    match t
    case Base(_) =>
    case Ref(q, nullable) =>
      if !v.Absent? {
        NamedThereAndBack(o, n, q, v, if nullable then n.blank(q) else u, if nullable then o.blank(q) else u');
      }
    case List(e) =>
      var r := Convert(o, t, Convert(n, t, v, u), u');
      KnownGrows(o, n, e);
      BlankFits(o, e);
      BlankFits(n, e);
      forall i | 0 <= i < |v.elems| ensures r.elems[i] == v.elems[i] {
        ThereAndBack(o, n, e, v.elems[i], Blank(n, e), Blank(o, e));
      }
      assert r.elems == v.elems;
  }

  lemma {:induction false} NamedThereAndBack<P(!new), V(!new)>(o: Release<P, V>, n: Release<P, V>, q: string, v: Value<V>, u: Value<V>, u': Value<V>)
    requires Older(o, n) && Complete(o) && SoundBlanks(o) && SoundBlanks(n)
    requires FitsNamed(o, q, v) && FitsNamed(n, q, u) && FitsNamed(o, q, u')
    ensures !ConvertNamed(n, q, v, u).Absent? && ConvertNamed(o, q, ConvertNamed(n, q, v, u), u') == v
    decreases v, 0
  {
    assert Grown(o.shapes[q], n.shapes[q]);
    var types, more := o.shapes[q].types, n.shapes[q].types;
    if v.Object? {
      var r := ConvertNamed(o, q, ConvertNamed(n, q, v, u), u');
      forall i | 0 <= i < |types| ensures r.fields[i] == v.fields[i] {
        assert more[i] == types[i];
        ThereAndBack(o, n, types[i], v.fields[i], u.fields[i], u'.fields[i]);
      }
      assert r.fields == v.fields;
    } else {
      KnownGrows(o, n, types[v.tag]);
      BlankFits(o, types[v.tag]);
      BlankFits(n, types[v.tag]);
      ThereAndBack(o, n, types[v.tag], v.value, Blank(n, types[v.tag]), Blank(o, types[v.tag]));
    }
  }

  // ---- bytes --------------------------------------------------------------

  /** The bytes of small numbers, and the byte that each power of 256 goes to. */
  lemma {:induction false} NumberBytes()
    ensures EncodeInt32(0) == [0, 0, 0, 0] && EncodeInt32(1) == [1, 0, 0, 0] && EncodeInt32(-1) == [255, 255, 255, 255]
    ensures EncodeInt32(0x0403_0201) == [1, 2, 3, 4]
  {
  }

  /** An absent value is four zero bytes; a present one comes after a one and three zeros. */
  lemma {:induction false} MarkerBytes<P, V>(c: Codec<P, V>, rel: Release<P, V>, q: string, nullable: bool, v: Value<V>)
    requires Encode(c, rel, Ref(q, nullable), v).Some?
    ensures v.Absent? ==> Encode(c, rel, Ref(q, nullable), v).value == [0, 0, 0, 0]
    ensures !v.Absent? ==> [1, 0, 0, 0] <= Encode(c, rel, Ref(q, nullable), v).value
  {
    NumberBytes();
  }

  /** Where no null is allowed, its marker is refused as an unexpected null, and so is a list of negative length. */
  lemma {:induction false} NullIsRefused<P, V>(c: Codec<P, V>, rel: Release<P, V>, q: string, e: Type<P>, n: int, rest: Bytes, u: Value<V>)
    requires -2147483648 <= n < 0
    ensures Decode(c, rel, Ref(q, false), [0, 0, 0, 0] + rest, u) == Failed(UnexpectedNull)
    ensures Decode(c, rel, Ref(q, true), [0, 0, 0, 0] + rest, u) == Got(Absent, 4)
    ensures Decode(c, rel, List(e), EncodeInt32(n) + rest, u) == Failed(UnexpectedNull)
  {
    NumberBytes();
    FrontInt32(0, rest);
    FrontInt32(n, rest);
  }
}
