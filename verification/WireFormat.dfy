/** Records written under one version of a parcelable and read under another. */
module WireFormat {
  import opened Basics
  import opened Parcel

  /** One schema is the other with fields appended. */
  predicate Comparable<T(==)>(a: seq<T>, b: seq<T>) {
    a <= b || b <= a
  }

  function Min(a: nat, b: nat): nat { if a < b then a else b }

  /** What a reader holds afterwards: the fields it shares with the writer, and its own for the rest. */
  function Merged<V>(values: seq<V>, fields: seq<V>): (r: seq<V>)
    ensures |r| == |fields|
  {
    var m := Min(|values|, |fields|);
    values[..m] + fields[m..]
  }

  /** Each shared field of the writer reaches the reader's field as the result says; the reader's other
      fields stay. */
  ghost predicate FieldsConveyed<T, V>(cw: Codec<T, V>, values: seq<V>, cr: Codec<T, V>, reader: seq<T>, fields: seq<V>, results: seq<V>) {
    && |results| == |fields| == |reader|
    && forall i :: 0 <= i < |reader| ==>
         if i < |values| then Conveyed(cw, cr, reader[i], values[i], fields[i], results[i]) else results[i] == fields[i]
  }

  /** The reader's fields once the first `i` have been read. */
  function Partly<V>(results: seq<V>, fields: seq<V>, i: nat): (r: seq<V>)
    requires |results| == |fields| && i <= |fields|
    ensures |r| == |fields|
  {
    results[..i] + fields[i..]
  }

  lemma PartlyStep<V>(results: seq<V>, fields: seq<V>, i: nat)
    requires |results| == |fields| && i < |fields|
    ensures Partly(results, fields, i)[i] == fields[i]
    ensures Partly(results, fields, i)[i := results[i]] == Partly(results, fields, i + 1)
  {
  }

  lemma PartlyDone<V>(results: seq<V>, fields: seq<V>, i: nat)
    requires |results| == |fields| && i <= |fields| && forall j :: i <= j < |fields| ==> results[j] == fields[j]
    ensures Partly(results, fields, i) == results
  {
  }

  /** Reading from the `i`-th field on, where the writer's remaining fields lie. */
  lemma {:induction false} ReadsBack<T, V>(cw: Codec<T, V>, writer: seq<T>, values: seq<V>,
                                           cr: Codec<T, V>, reader: seq<T>, fields: seq<V>, results: seq<V>,
                                           data: Bytes, start: nat, size: nat, i: nat, pos: nat, post: Bytes)
    requires |writer| == |values| && Comparable(writer, reader) && FieldsConveyed(cw, values, cr, reader, fields, results)
    requires i <= |writer| && i <= |reader| && start <= pos
    requires BodyFrom(cw, writer, values, i).Some?
    requires Suffix(data, pos) == BodyFrom(cw, writer, values, i).value + post
    requires pos + |BodyFrom(cw, writer, values, i).value| == start + size
    ensures ReadFields(cr, reader, data, start, size, i, pos, Partly(results, fields, i)) == ReadResult(Ok, start + size, results)
    decreases |writer| - i
  {
    if i < |writer| && i < |reader| {
      var f := cw.write(writer[i], values[i]).value;
      var rest := BodyFrom(cw, writer, values, i + 1).value;
      assert writer[i] == reader[i];
      assert Conveyed(cw, cr, reader[i], values[i], fields[i], results[i]);
      Regroup(f, rest, post);
      SuffixOn(data, pos, f, rest + post);
      PartlyStep(results, fields, i);
      ReadsBack(cw, writer, values, cr, reader, fields, results, data, start, size, i + 1, pos + |f|, post);
    } else {
      PartlyDone(results, fields, i);
    }
  }

  lemma SuffixOn(data: Bytes, pos: nat, a: Bytes, b: Bytes)
    requires Suffix(data, pos) == a + b && a != []
    ensures Suffix(data, pos + |a|) == b
  {
    assert data[pos..][|a|..] == data[pos + |a|..];
  }

  lemma HeaderOf(data: Bytes, start: nat, body: Bytes, post: Bytes)
    requires Suffix(data, start) == Record(body) + post
    ensures |Suffix(data, start)| >= 4 && DecodeInt32(Suffix(data, start)[..4]) == Wrap32(4 + |body|)
    ensures Suffix(data, start + 4) == body + post
  {
    assert Suffix(data, start)[..4] == EncodeInt32(4 + |body|);
    Int32RoundTrip(4 + |body|);
    Regroup(EncodeInt32(4 + |body|), body, post);
    SuffixOn(data, start, EncodeInt32(4 + |body|), body + post);
  }

  /** Whatever the bytes, a successful read ends exactly the declared size after its start. */
  lemma {:induction false} FieldsEndAtSize<T, V>(c: Codec<T, V>, schema: seq<T>, data: Bytes, start: nat, size: nat, i: nat, pos: nat, fields: seq<V>)
    requires i <= |schema| == |fields| && start <= pos
    ensures var r := ReadFields(c, schema, data, start, size, i, pos, fields);
      r.status == Ok ==> r.pos == start + size && |r.fields| == |schema|
    decreases |schema| - i
  {
    if i < |schema| && pos - start < size {
      match c.read(schema[i], Suffix(data, pos), fields[i])
      case Failed(_) =>
      case Got(v, used) => FieldsEndAtSize(c, schema, data, start, size, i + 1, pos + used, fields[i := v]);
    }
  }

  lemma ReadEndsAtSize<T, V>(c: Codec<T, V>, schema: seq<T>, data: Bytes, start: nat, fields: seq<V>)
    requires |schema| == |fields|
    ensures var r := ReadRecord(c, schema, data, start, fields);
      r.status == Ok ==>
        && |Suffix(data, start)| >= 4
        && 4 <= DecodeInt32(Suffix(data, start)[..4])
        && r.pos == start + DecodeInt32(Suffix(data, start)[..4])
        && |r.fields| == |schema|
  {
    if |Suffix(data, start)| >= 4 {
      var size := DecodeInt32(Suffix(data, start)[..4]);
      if 4 <= size <= SIZE_MAX - start {
        FieldsEndAtSize(c, schema, data, start, size, 0, start + 4, fields);
      }
    }
  }

  /** A record written by one side under its schema is read by the other under any comparable one
      exactly when its size fits a 32-bit integer: the shared fields arrive as they are conveyed, the
      reader keeps its own values for fields the writer did not know, and it ends at the end of the
      record. */
  lemma RecordRoundTrip<T, V>(cw: Codec<T, V>, writer: seq<T>, values: seq<V>,
                              cr: Codec<T, V>, reader: seq<T>, fields: seq<V>, results: seq<V>,
                              data: Bytes, start: nat, post: Bytes)
    requires |writer| == |values| && Comparable(writer, reader) && FieldsConveyed(cw, values, cr, reader, fields, results)
    requires Body(cw, writer, values).Some?
    requires Suffix(data, start) == Record(Body(cw, writer, values).value) + post
    requires start + |Record(Body(cw, writer, values).value)| <= SIZE_MAX
    ensures var end := start + |Record(Body(cw, writer, values).value)|;
            var r := ReadRecord(cr, reader, data, start, fields);
      && (r == ReadResult(Ok, end, results) <==> end - start < 0x8000_0000)
      && (r.status == Ok && r.pos == end <==> end - start < 0x8000_0000)
  {
    var body := Body(cw, writer, values).value;
    HeaderOf(data, start, body, post);
    ReadEndsAtSize(cr, reader, data, start, fields);
    if 4 + |body| < 0x8000_0000 {
      assert Partly(results, fields, 0) == fields;
      ReadsBack(cw, writer, values, cr, reader, fields, results, data, start, 4 + |body|, 0, start + 4, post);
    }
  }

  lemma {:induction false} BodyIsWritten<T, V>(c: Codec<T, V>, schema: seq<T>, values: seq<V>, i: nat, k: nat)
    requires |schema| == |values| && i <= k < |schema| && BodyFrom(c, schema, values, i).Some?
    ensures c.write(schema[k], values[k]).Some? && BodyFrom(c, schema, values, k).Some?
    ensures |c.write(schema[k], values[k]).value| <= |BodyFrom(c, schema, values, i).value|
    decreases k - i
  {
    if i < k {
      BodyIsWritten(c, schema, values, i + 1, k);
    }
  }

  // ---- lists --------------------------------------------------------------

  /** The encodings of the elements from the `i`-th on. */
  function ListFrom<T, V>(c: Codec<T, V>, e: T, elems: seq<V>, i: nat): Option<Bytes>
    requires i <= |elems|
    decreases |elems| - i
  {
    if i == |elems| then Some([])
    else
      match c.write(e, elems[i])
      case None => None
      case Some(f) => Ahead(f, ListFrom(c, e, elems, i + 1))
  }

  /** `v` in front of what was read after it. */
  function Cons<V>(v: V, rest: FieldRead<seq<V>>): FieldRead<seq<V>> {
    match rest
    case Failed(f) => Failed(f)
    case Got(vs, end) => Got([v] + vs, end)
  }

  /** Reads `n` elements into new variables. */
  function ReadList<T, V>(c: Codec<T, V>, e: T, blank: V, b: Bytes, pos: nat, n: nat): FieldRead<seq<V>>
    decreases n
  {
    if n == 0 then Got([], pos)
    else
      match c.read(e, Suffix(b, pos), blank)
      case Failed(f) => Failed(f)
      case Got(v, used) => Cons(v, ReadList(c, e, blank, b, pos + used, n - 1))
  }

  lemma {:induction false} ElementReads<T, V>(cw: Codec<T, V>, cr: Codec<T, V>, e: T, elems: seq<V>, blank: V, r: V,
                                              b: Bytes, pos: nat, i: nat, rest: Bytes)
    requires i < |elems| && ListFrom(cw, e, elems, i).Some? && Conveyed(cw, cr, e, elems[i], blank, r)
    requires Suffix(b, pos) == ListFrom(cw, e, elems, i).value + rest
    ensures ListFrom(cw, e, elems, i + 1).Some?
    ensures var f := cw.write(e, elems[i]).value;
      && cr.read(e, Suffix(b, pos), blank) == Got(r, |f|)
      && Suffix(b, pos + |f|) == ListFrom(cw, e, elems, i + 1).value + rest
      && |ListFrom(cw, e, elems, i).value| == |f| + |ListFrom(cw, e, elems, i + 1).value|
  {
    var f, more := cw.write(e, elems[i]).value, ListFrom(cw, e, elems, i + 1).value;
    Regroup(f, more, rest);
    SuffixOn(b, pos, f, more + rest);
  }

  lemma {:induction false} FirstAndRest<V>(all: seq<V>, i: nat)
    requires i < |all|
    ensures all[i..] == [all[i]] + all[i + 1..]
  {
  }

  /** Elements arrive in order, each as it is conveyed. */
  lemma {:induction false} ListReadsBack<T, V>(cw: Codec<T, V>, cr: Codec<T, V>, e: T, elems: seq<V>, blank: V, results: seq<V>,
                                               b: Bytes, pos: nat, i: nat, rest: Bytes)
    requires |results| == |elems| && i <= |elems| && ListFrom(cw, e, elems, i).Some?
    requires forall j :: 0 <= j < |elems| ==> Conveyed(cw, cr, e, elems[j], blank, results[j])
    requires Suffix(b, pos) == ListFrom(cw, e, elems, i).value + rest
    ensures ReadList(cr, e, blank, b, pos, |elems| - i) == Got(results[i..], pos + |ListFrom(cw, e, elems, i).value|)
    decreases |elems| - i
  {
    if i == |elems| {
      assert results[i..] == [];
    } else {
      ElementReads(cw, cr, e, elems, blank, results[i], b, pos, i, rest);
      ListReadsBack(cw, cr, e, elems, blank, results, b, pos + |cw.write(e, elems[i]).value|, i + 1, rest);
      FirstAndRest(results, i);
    }
  }

  lemma {:induction false} ListIsWritten<T, V>(c: Codec<T, V>, e: T, elems: seq<V>, i: nat, k: nat)
    requires i <= k < |elems| && ListFrom(c, e, elems, i).Some?
    ensures c.write(e, elems[k]).Some? && |c.write(e, elems[k]).value| <= |ListFrom(c, e, elems, i).value|
    decreases k - i
  {
    if i < k {
      ListIsWritten(c, e, elems, i + 1, k);
    }
  }

  // ---- records back to back -----------------------------------------------

  /** A record to write or an object to read into: by which encoding, under which schema, with which
      values. */
  datatype Item<!T, !V> = Item(codec: Codec<T, V>, schema: seq<T>, values: seq<V>)

  ghost predicate Writable<T, V>(items: seq<Item<T, V>>) {
    forall i :: 0 <= i < |items| ==>
      && |items[i].schema| == |items[i].values|
      && Body(items[i].codec, items[i].schema, items[i].values).Some?
      && |Record(Body(items[i].codec, items[i].schema, items[i].values).value)| < 0x8000_0000
  }

  /** The records from the `i`-th on, one after the other. */
  ghost function Stream<T, V>(items: seq<Item<T, V>>, i: nat): Bytes
    requires Writable(items) && i <= |items|
    decreases |items| - i
  {
    if i == |items| then []
    else Record(Body(items[i].codec, items[i].schema, items[i].values).value) + Stream(items, i + 1)
  }

  ghost predicate Shaped<T, V>(readers: seq<Item<T, V>>) {
    forall j :: 0 <= j < |readers| ==> |readers[j].schema| == |readers[j].values|
  }

  /** Reads records one after the other, the `i`-th as `readers[i]` into an object that holds its
      values, and stops at the first failure. */
  ghost function ReadStream<T, V>(readers: seq<Item<T, V>>, data: Bytes, pos: nat, i: nat): (Status, nat, seq<seq<V>>)
    requires i <= |readers| && Shaped(readers)
    decreases |readers| - i
  {
    if i == |readers| then (Ok, pos, [])
    else
      var r := ReadRecord(readers[i].codec, readers[i].schema, data, pos, readers[i].values);
      if r.status != Ok then (r.status, r.pos, [])
      else
        var rest := ReadStream(readers, data, r.pos, i + 1);
        (rest.0, rest.1, [r.fields] + rest.2)
  }

  /** The reader's schema is comparable with the writer's, and the shared fields arrive as `results`. */
  ghost predicate Meets<T, V>(item: Item<T, V>, reader: Item<T, V>, results: seq<V>) {
    && Comparable(item.schema, reader.schema)
    && FieldsConveyed(item.codec, item.values, reader.codec, reader.schema, reader.values, results)
  }

  lemma FirstOfStream<T, V>(item: Item<T, V>, reader: Item<T, V>, results: seq<V>,
                            data: Bytes, pos: nat, rest: Bytes, post: Bytes) returns (end: nat)
    requires Meets(item, reader, results)
    requires |item.schema| == |item.values| && Body(item.codec, item.schema, item.values).Some?
    requires |Record(Body(item.codec, item.schema, item.values).value)| < 0x8000_0000
    requires Suffix(data, pos) == Record(Body(item.codec, item.schema, item.values).value) + rest + post
    requires pos + |Record(Body(item.codec, item.schema, item.values).value)| <= SIZE_MAX
    ensures end == pos + |Record(Body(item.codec, item.schema, item.values).value)| && Suffix(data, end) == rest + post
    ensures ReadRecord(reader.codec, reader.schema, data, pos, reader.values) == ReadResult(Ok, end, results)
  {
    var rec := Record(Body(item.codec, item.schema, item.values).value);
    Regroup(rec, rest, post);
    RecordRoundTrip(item.codec, item.schema, item.values, reader.codec, reader.schema, reader.values, results, data, pos, rest + post);
    SuffixOn(data, pos, rec, rest + post);
    end := pos + |rec|;
  }

  lemma {:induction false} ReadStreamStep<T, V>(readers: seq<Item<T, V>>, data: Bytes, pos: nat, i: nat, end: nat, results: seq<seq<V>>)
    requires Shaped(readers) && i < |readers| == |results|
    requires ReadRecord(readers[i].codec, readers[i].schema, data, pos, readers[i].values) == ReadResult(Ok, end, results[i])
    requires ReadStream(readers, data, end, i + 1).2 == results[i + 1..]
    ensures ReadStream(readers, data, pos, i).0 == ReadStream(readers, data, end, i + 1).0
    ensures ReadStream(readers, data, pos, i).1 == ReadStream(readers, data, end, i + 1).1
    ensures ReadStream(readers, data, pos, i).2 == results[i..]
  {
    assert results[i..] == [results[i]] + results[i + 1..];
  }

  /** Any sequence of records, each written by its own side under its own version, is read back record
      by record by readers of any versions that meet the writers'. */
  lemma {:induction false} StreamRoundTrip<T, V>(items: seq<Item<T, V>>, readers: seq<Item<T, V>>, results: seq<seq<V>>,
                                                 data: Bytes, pos: nat, i: nat, post: Bytes)
    requires Writable(items) && Shaped(readers) && |results| == |readers| == |items| && i <= |items|
    requires forall j :: 0 <= j < |items| ==> Meets(items[j], readers[j], results[j])
    requires Suffix(data, pos) == Stream(items, i) + post && pos + |Stream(items, i)| <= SIZE_MAX
    ensures ReadStream(readers, data, pos, i) == (Ok, pos + |Stream(items, i)|, results[i..])
    decreases |items| - i
  {
    if i < |items| {
      var rest := Stream(items, i + 1);
      var end := FirstOfStream(items[i], readers[i], results[i], data, pos, rest, post);
      StreamRoundTrip(items, readers, results, data, end, i + 1, post);
      ReadStreamStep(readers, data, pos, i, end, results);
    } else {
      assert results[i..] == [];
    }
  }

  // ---- refused headers ----------------------------------------------------

  /** A record is not read at all when its four-byte size is missing, is less than four, or would end past
      what a position can hold; the fields keep what they held.  Otherwise its fields are read. */
  lemma {:induction false} RefusedHeader<T, V>(c: Codec<T, V>, schema: seq<T>, data: Bytes, start: nat, fields: seq<V>, size: int)
    requires |schema| == |fields|
    ensures start + 4 > |data| ==> ReadRecord(c, schema, data, start, fields) == ReadResult(Err(NotEnoughData), start, fields)
    ensures start + 4 <= |data| && data[start..start + 4] == EncodeInt32(size) && -2147483648 <= size <= 2147483647 ==>
      ((size < 4 || start + size > 18446744073709551615) ==>
         ReadRecord(c, schema, data, start, fields) == ReadResult(Err(BadValue), start + 4, fields))
    ensures start + 4 <= |data| && data[start..start + 4] == EncodeInt32(size) && 4 <= size <= 2147483647 && start + size <= 18446744073709551615 ==>
      ReadRecord(c, schema, data, start, fields) == ReadFields(c, schema, data, start, size, 0, start + 4, fields)
  {
    Int32RoundTrip(size);
    if start + 4 <= |data| {
      assert Suffix(data, start)[..4] == data[start..start + 4];
    }
  }

  // ---- reads that fail ----------------------------------------------------

  /** What one side writes for `v`, the other side refuses, whatever follows. */
  ghost predicate Refuses<T, V>(cw: Codec<T, V>, cr: Codec<T, V>, t: T, v: V, u: V, f: Fault) {
    && cw.write(t, v).Some? && cw.write(t, v).value != []
    && forall rest :: cr.read(t, cw.write(t, v).value + rest, u) == Failed(f)
  }

  lemma {:induction false} RefusedHere<T, V>(cw: Codec<T, V>, cr: Codec<T, V>, schema: seq<T>, data: Bytes, start: nat, size: nat, k: nat, pos: nat,
                                             fields: seq<V>, v: V, rest: Bytes, f: Fault)
    requires k < |schema| == |fields| && start <= pos < start + size && Refuses(cw, cr, schema[k], v, fields[k], f)
    requires Suffix(data, pos) == cw.write(schema[k], v).value + rest
    ensures ReadFields(cr, schema, data, start, size, k, pos, fields) == ReadResult(Err(f), pos, fields)
  {
  }

  lemma {:induction false} OneFieldRead<T, V>(cw: Codec<T, V>, cr: Codec<T, V>, schema: seq<T>, data: Bytes, start: nat, size: nat, i: nat, pos: nat,
                                           results: seq<V>, fields: seq<V>, v: V, rest: Bytes)
    requires i < |schema| == |fields| == |results| && start <= pos < start + size && Conveyed(cw, cr, schema[i], v, fields[i], results[i])
    requires Suffix(data, pos) == cw.write(schema[i], v).value + rest
    ensures var next := pos + |cw.write(schema[i], v).value|;
      && Suffix(data, next) == rest
      && ReadFields(cr, schema, data, start, size, i, pos, Partly(results, fields, i)) ==
         ReadFields(cr, schema, data, start, size, i + 1, next, Partly(results, fields, i + 1))
  {
    PartlyStep(results, fields, i);
    SuffixOn(data, pos, cw.write(schema[i], v).value, rest);
    ReadOneField(cr, schema, data, start, size, i, pos, Partly(results, fields, i));
  }

  /** The fields from the `i`-th on lie at `pos`, up to `end`. */
  ghost predicate LiesAt<T, V>(c: Codec<T, V>, schema: seq<T>, values: seq<V>, data: Bytes, i: nat, pos: nat, post: Bytes, end: nat)
    requires |schema| == |values| && i <= |schema|
  {
    var b := BodyFrom(c, schema, values, i);
    b.Some? && Suffix(data, pos) == b.value + post && pos + |b.value| == end
  }

  lemma {:induction false} NextLies<T, V>(c: Codec<T, V>, schema: seq<T>, values: seq<V>, data: Bytes, i: nat, pos: nat, post: Bytes, end: nat)
      returns (f: Bytes, rest: Bytes)
    requires |schema| == |values| && i < |schema| && LiesAt(c, schema, values, data, i, pos, post, end)
    requires c.write(schema[i], values[i]).Some? && c.write(schema[i], values[i]).value != []
    ensures f == c.write(schema[i], values[i]).value && Suffix(data, pos) == f + rest && pos < end
    ensures LiesAt(c, schema, values, data, i + 1, pos + |f|, post, end)
  {
    f := c.write(schema[i], values[i]).value;
    var body := BodyFrom(c, schema, values, i + 1).value;
    rest := body + post;
    Regroup(f, body, post);
    SuffixOn(data, pos, f, rest);
  }

  ghost predicate ConveyedUpTo<T, V>(cw: Codec<T, V>, cr: Codec<T, V>, schema: seq<T>, values: seq<V>, fields: seq<V>, results: seq<V>, k: nat) {
    && |schema| == |values| == |results| == |fields| && k <= |schema|
    && forall j :: 0 <= j < k ==> Conveyed(cw, cr, schema[j], values[j], fields[j], results[j])
  }

  lemma {:induction false} ConveyedOn<T, V>(cw: Codec<T, V>, cr: Codec<T, V>, schema: seq<T>, values: seq<V>, fields: seq<V>, results: seq<V>,
                                            data: Bytes, start: nat, size: nat, i: nat, pos: nat, post: Bytes, k: nat) returns (next: nat)
    requires ConveyedUpTo(cw, cr, schema, values, fields, results, k) && i < k && start <= pos
    requires LiesAt(cw, schema, values, data, i, pos, post, start + size)
    ensures start <= next && LiesAt(cw, schema, values, data, i + 1, next, post, start + size)
    ensures ReadFields(cr, schema, data, start, size, i, pos, Partly(results, fields, i)) ==
            ReadFields(cr, schema, data, start, size, i + 1, next, Partly(results, fields, i + 1))
  {
    assert Conveyed(cw, cr, schema[i], values[i], fields[i], results[i]);
    var b, rest := NextLies(cw, schema, values, data, i, pos, post, start + size);
    OneFieldRead(cw, cr, schema, data, start, size, i, pos, results, fields, values[i], rest);
    next := pos + |b|;
  }

  lemma {:induction false} RefusedAt<T, V>(cw: Codec<T, V>, cr: Codec<T, V>, schema: seq<T>, values: seq<V>, fields: seq<V>, results: seq<V>,
                                           data: Bytes, start: nat, size: nat, pos: nat, post: Bytes, k: nat, f: Fault)
    requires |schema| == |values| == |results| == |fields| && k < |schema| && start <= pos
    requires Refuses(cw, cr, schema[k], values[k], fields[k], f) && LiesAt(cw, schema, values, data, k, pos, post, start + size)
    ensures ReadFields(cr, schema, data, start, size, k, pos, Partly(results, fields, k)) == ReadResult(Err(f), pos, Partly(results, fields, k))
  {
    var b, rest := NextLies(cw, schema, values, data, k, pos, post, start + size);
    PartlyStep(results, fields, k);
    RefusedHere(cw, cr, schema, data, start, size, k, pos, Partly(results, fields, k), values[k], rest, f);
  }

  /** When a field is refused, those before it have been read and the others are as they were. */
  lemma {:induction false} RefusedField<T, V>(cw: Codec<T, V>, cr: Codec<T, V>, schema: seq<T>, values: seq<V>, fields: seq<V>, results: seq<V>,
                                              data: Bytes, start: nat, size: nat, i: nat, pos: nat, post: Bytes, k: nat, f: Fault) returns (at: nat)
    requires ConveyedUpTo(cw, cr, schema, values, fields, results, k) && i <= k < |schema| && start <= pos
    requires Refuses(cw, cr, schema[k], values[k], fields[k], f) && LiesAt(cw, schema, values, data, i, pos, post, start + size)
    ensures LiesAt(cw, schema, values, data, k, at, post, start + size)
    ensures ReadFields(cr, schema, data, start, size, i, pos, Partly(results, fields, i)) == ReadResult(Err(f), at, Partly(results, fields, k))
    decreases k - i
  {
    if i == k {
      RefusedAt(cw, cr, schema, values, fields, results, data, start, size, pos, post, k, f);
      at := pos;
    } else {
      var next := ConveyedOn(cw, cr, schema, values, fields, results, data, start, size, i, pos, post, k);
      at := RefusedField(cw, cr, schema, values, fields, results, data, start, size, i + 1, next, post, k, f);
    }
  }
}
