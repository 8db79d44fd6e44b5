/** Parcels: a byte buffer with a position, and the size-headed records written into it. */
module Parcel {
  import opened Basics

  type Byte = x: int | 0 <= x < 256

  type Bytes = seq<Byte>

  datatype Fault = BadValue | NotEnoughData | BadType | UnknownTransaction | UnexpectedNull | Other(code: int)

  datatype Status = Ok | Err(fault: Fault)

  // ---- 32-bit integers ----------------------------------------------------

  const TWO_32: int := 0x1_0000_0000

  /** Conversion to a signed 32-bit integer. */
  function Wrap32(n: int): (r: int)
    ensures -0x8000_0000 <= r < 0x8000_0000
    ensures r == n <==> -0x8000_0000 <= n < 0x8000_0000
  {
    var u := n % TWO_32;
    if u < 0x8000_0000 then u else u - TWO_32
  }

  /** Four bytes, least significant first. */
  function EncodeInt32(n: int): (b: Bytes)
    ensures |b| == 4
  {
    var u := n % TWO_32;
    [u % 256, u / 0x100 % 256, u / 0x1_0000 % 256, u / 0x100_0000 % 256]
  }

  function DecodeInt32(b: Bytes): int
    requires |b| == 4
  {
    Wrap32(b[0] as int + 0x100 * (b[1] as int) + 0x1_0000 * (b[2] as int) + 0x100_0000 * (b[3] as int))
  }

  lemma {:induction false} Int32RoundTrip(n: int)
    ensures DecodeInt32(EncodeInt32(n)) == Wrap32(n)
  {
    var u := n % TWO_32;
    var b := EncodeInt32(n);
    assert u / 0x1_0000 == u / 0x100 / 0x100;
    assert u / 0x100_0000 == u / 0x1_0000 / 0x100;
    assert u / 0x100_0000 < 256;
    assert u == b[0] as int + 0x100 * (b[1] as int) + 0x1_0000 * (b[2] as int) + 0x100_0000 * (b[3] as int);
    assert u % TWO_32 == u;
  }

  // ---- the buffer ---------------------------------------------------------

  /** What lies at and after a position, which may be past the end. */
  function Suffix(data: Bytes, pos: nat): Bytes {
    if pos <= |data| then data[pos..] else []
  }

  /** Writing over what is there and past the end. */
  function Overwrite(data: Bytes, pos: nat, b: Bytes): Bytes
    requires pos <= |data|
  {
    data[..pos] + b + Suffix(data, pos + |b|)
  }

  lemma {:induction false} OverwriteNothing(data: Bytes, pos: nat)
    requires pos <= |data|
    ensures Overwrite(data, pos, []) == data
  {
  }

  lemma {:induction false} OverwriteOn(data: Bytes, pos: nat, a: Bytes, b: Bytes)
    requires pos <= |data|
    ensures Overwrite(Overwrite(data, pos, a), pos + |a|, b) == Overwrite(data, pos, a + b)
  {
  }

  lemma {:induction false} OverwriteHead(data: Bytes, pos: nat, a: Bytes, b: Bytes, a': Bytes)
    requires pos <= |data| && |a| == |a'|
    ensures Overwrite(Overwrite(data, pos, a + b), pos, a') == Overwrite(data, pos, a' + b)
  {
    var x, tail := Overwrite(data, pos, a + b), Suffix(data, pos + |a + b|);
    assert x == data[..pos] + (a + (b + tail));
    assert x[..pos] == data[..pos] && Suffix(x, pos + |a'|) == b + tail;
    assert data[..pos] + a' + (b + tail) == data[..pos] + (a' + b) + tail;
  }

  // ---- field encodings ----------------------------------------------------

  datatype FieldRead<V> = Got(value: V, used: nat) | Failed(fault: Fault)

  /** How values of each type are written, and read into a variable that holds another value already;
      writing may be refused. */
  datatype Codec<!T, !V> = Codec(write: (T, V) -> Option<Bytes>, read: (T, Bytes, V) -> FieldRead<V>)

  /** What one side writes for `v`, not nothing, the other side reads into `u` as `r`, whatever follows. */
  ghost predicate Conveyed<T, V>(cw: Codec<T, V>, cr: Codec<T, V>, t: T, v: V, u: V, r: V) {
    && cw.write(t, v).Some? && cw.write(t, v).value != []
    && forall rest :: cr.read(t, cw.write(t, v).value + rest, u) == Got(r, |cw.write(t, v).value|)
  }

  /** This value is read back by the same side, whatever the variable held. */
  ghost predicate RoundTrips<T, V(!new)>(c: Codec<T, V>, t: T, v: V) {
    c.write(t, v).Some? && forall u :: Conveyed(c, c, t, v, u, v)
  }

  /** Every value that is written at all is read back. */
  ghost predicate Lawful<T(!new), V(!new)>(c: Codec<T, V>) {
    forall t, v :: c.write(t, v).Some? ==> RoundTrips(c, t, v)
  }

  /** Plain integers have such an encoding. */
  function Int32Codec(): Codec<(), int> {
    Codec((_, n: int) => if Wrap32(n) == n then Some(EncodeInt32(n)) else None,
          (_, b: Bytes, _) => if |b| < 4 then Failed(NotEnoughData) else Got(DecodeInt32(b[..4]), 4))
  }

  lemma {:induction false} Int32CodecIsLawful()
    ensures Lawful(Int32Codec())
  {
    var c := Int32Codec();
    forall t, n | c.write(t, n).Some? ensures RoundTrips(c, t, n) {
      Int32RoundTrip(n);
      forall u, rest ensures c.read(t, EncodeInt32(n) + rest, u) == Got(n, 4) {
        assert (EncodeInt32(n) + rest)[..4] == EncodeInt32(n);
      }
    }
  }

  // ---- records ------------------------------------------------------------

  /** `b` in front of an encoding that may have been refused. */
  function Ahead(b: Bytes, rest: Option<Bytes>): Option<Bytes> {
    match rest
    case None => None
    case Some(r) => Some(b + r)
  }

  lemma {:induction false} AheadOfAll(rest: Option<Bytes>)
    ensures Ahead([], rest) == rest
  {
    if rest.Some? {
      assert [] + rest.value == rest.value;
    }
  }

  lemma {:induction false} AheadTwice(a: Bytes, b: Bytes, rest: Option<Bytes>)
    ensures Ahead(a, Ahead(b, rest)) == Ahead(a + b, rest)
  {
    if rest.Some? {
      Regroup(a, b, rest.value);
    }
  }

  /** The encodings of the fields from the `i`-th on; `None` when one is refused. */
  function BodyFrom<T, V>(c: Codec<T, V>, schema: seq<T>, values: seq<V>, i: nat): Option<Bytes>
    requires |schema| == |values| && i <= |schema|
    decreases |schema| - i
  {
    if i == |schema| then Some([])
    else
      match c.write(schema[i], values[i])
      case None => None
      case Some(f) => Ahead(f, BodyFrom(c, schema, values, i + 1))
  }

  function Body<T, V>(c: Codec<T, V>, schema: seq<T>, values: seq<V>): Option<Bytes>
    requires |schema| == |values|
  {
    BodyFrom(c, schema, values, 0)
  }

  lemma {:induction false} NextField<T, V>(c: Codec<T, V>, schema: seq<T>, values: seq<V>, i: nat, body: Bytes)
    requires |schema| == |values| && i < |schema|
    ensures Ahead(body, BodyFrom(c, schema, values, i)) ==
      match c.write(schema[i], values[i])
      case None => None
      case Some(f) => Ahead(body + f, BodyFrom(c, schema, values, i + 1))
  {
    if c.write(schema[i], values[i]).Some? {
      AheadTwice(body, c.write(schema[i], values[i]).value, BodyFrom(c, schema, values, i + 1));
    }
  }

  function Record(body: Bytes): Bytes {
    EncodeInt32(4 + |body|) + body
  }

  datatype ReadResult<V> = ReadResult(status: Status, pos: nat, fields: seq<V>)

  const SIZE_MAX: int := 0xFFFF_FFFF_FFFF_FFFF

  /** Reads the fields from the `i`-th on, at `pos`, of a record of `size` bytes that began at `start`.
      It stops as soon as the record is used up, and in the end always skips to its end. */
  function ReadFields<T, V>(c: Codec<T, V>, schema: seq<T>, data: Bytes, start: nat, size: nat, i: nat, pos: nat, fields: seq<V>): ReadResult<V>
    requires i <= |schema| == |fields| && start <= pos
    decreases |schema| - i
  {
    if i == |schema| || pos - start >= size then ReadResult(Ok, start + size, fields)
    else
      match c.read(schema[i], Suffix(data, pos), fields[i])
      case Failed(f) => ReadResult(Err(f), pos, fields)
      case Got(v, used) => ReadFields(c, schema, data, start, size, i + 1, pos + used, fields[i := v])
  }

  /** Reads one record into an object whose fields are `fields` before. */
  function ReadRecord<T, V>(c: Codec<T, V>, schema: seq<T>, data: Bytes, start: nat, fields: seq<V>): ReadResult<V>
    requires |schema| == |fields|
  {
    if |Suffix(data, start)| < 4 then ReadResult(Err(NotEnoughData), start, fields)
    else
      var size := DecodeInt32(Suffix(data, start)[..4]);
      if size < 4 || start > SIZE_MAX - size then ReadResult(Err(BadValue), start + 4, fields)
      else ReadFields(c, schema, data, start, size, 0, start + 4, fields)
  }

  lemma {:induction false} ReadOneField<T, V>(c: Codec<T, V>, schema: seq<T>, data: Bytes, start: nat, size: nat, i: nat, pos: nat, fields: seq<V>)
    requires i < |schema| == |fields| && start <= pos && pos - start < size
    ensures ReadFields(c, schema, data, start, size, i, pos, fields) ==
      match c.read(schema[i], Suffix(data, pos), fields[i])
      case Failed(f) => ReadResult(Err(f), pos, fields)
      case Got(v, used) => ReadFields(c, schema, data, start, size, i + 1, pos + used, fields[i := v])
  {
  }

  class ParcelBuffer {
    var data: Bytes
    var pos: nat

    constructor ()
      ensures data == [] && pos == 0
    {
      data, pos := [], 0;
    }

    method WriteBytes(b: Bytes)
      requires pos <= |data|
      modifies this
      ensures data == Overwrite(old(data), old(pos), b) && pos == old(pos) + |b|
    {
      data, pos := Overwrite(data, pos, b), pos + |b|;
    }

    method ReadInt32() returns (status: Status, n: int)
      modifies `pos
      ensures |Suffix(data, old(pos))| < 4 ==> status == Err(NotEnoughData) && pos == old(pos)
      ensures |Suffix(data, old(pos))| >= 4 ==>
        status == Ok && n == DecodeInt32(Suffix(data, old(pos))[..4]) && pos == old(pos) + 4
    {
      if |Suffix(data, pos)| < 4 {
        return Err(NotEnoughData), 0;
      }
      n := DecodeInt32(Suffix(data, pos)[..4]);
      status, pos := Ok, pos + 4;
    }

    method WriteFields<T, V>(c: Codec<T, V>, schema: seq<T>, values: seq<V>) returns (status: Status)
      requires pos <= |data| && |schema| == |values|
      modifies this
      ensures status == Ok <==> Body(c, schema, values).Some?
      ensures status == Ok ==>
        var b := Body(c, schema, values).value;
        data == Overwrite(old(data), old(pos), b) && pos == old(pos) + |b|
    {
      ghost var before, at, body: Bytes := data, pos, [];
      AheadOfAll(Body(c, schema, values));
      OverwriteNothing(data, pos);
      for i := 0 to |schema|
        invariant Body(c, schema, values) == Ahead(body, BodyFrom(c, schema, values, i))
        invariant Holds(before, at, body)
      {
        var field := c.write(schema[i], values[i]);
        NextField(c, schema, values, i, body);
        if field.None? {
          return Err(Other(0));
        }
        Append(before, at, body, field.value);
        body := body + field.value;
      }
      assert body + [] == body;
      status := Ok;
    }

    /** Since the buffer was `before`, `body` has been written at `at`. */
    ghost predicate Holds(before: Bytes, at: nat, body: Bytes)
      reads this
    {
      at <= |before| && pos == at + |body| && data == Overwrite(before, at, body)
    }

    method Append(ghost before: Bytes, ghost at: nat, ghost body: Bytes, b: Bytes)
      requires Holds(before, at, body)
      modifies this
      ensures Holds(before, at, body + b)
    {
      OverwriteOn(before, at, body, b);
      WriteBytes(b);
    }

    /** Writes a placeholder, then the fields, then goes back and fills in the size. */
    method WriteRecord<T, V>(c: Codec<T, V>, schema: seq<T>, values: seq<V>) returns (status: Status)
      requires pos <= |data| && |schema| == |values|
      modifies this
      ensures status == Ok <==> Body(c, schema, values).Some?
      ensures status == Ok ==>
        var r := Record(Body(c, schema, values).value);
        data == Overwrite(old(data), old(pos), r) && pos == old(pos) + |r|
    {
      var start := pos;
      WriteBytes(EncodeInt32(0));
      status := WriteFields(c, schema, values);
      if status != Ok {
        return;
      }
      ghost var body := Body(c, schema, values).value;
      OverwriteOn(old(data), start, EncodeInt32(0), body);
      var end := pos;
      pos := start;
      OverwriteHead(old(data), start, EncodeInt32(0), body, EncodeInt32(end - start));
      WriteBytes(EncodeInt32(end - start));
      pos := end;
    }

    method ReadRecordInto<T, V>(c: Codec<T, V>, schema: seq<T>, fields: seq<V>) returns (r: ReadResult<V>)
      requires |schema| == |fields|
      modifies `pos
      ensures r == ReadRecord(c, schema, data, old(pos), fields)
      ensures r.status == Ok ==> pos == r.pos
    {
      var start := pos;
      var status, size := ReadInt32();
      if status != Ok {
        return ReadResult(status, pos, fields);
      }
      if size < 4 || start > SIZE_MAX - size {
        return ReadResult(Err(BadValue), pos, fields);
      }
      r := ReadFieldsInto(c, schema, start, size, fields);
    }

    /** The fields of a record of `size` bytes that began at `start`. */
    method ReadFieldsInto<T, V>(c: Codec<T, V>, schema: seq<T>, start: nat, size: nat, fields: seq<V>) returns (r: ReadResult<V>)
      requires |schema| == |fields| && start <= pos
      modifies `pos
      ensures r == ReadFields(c, schema, data, start, size, 0, old(pos), fields)
      ensures r.status == Ok ==> pos == r.pos
    {
      var values := fields;
      for i := 0 to |schema|
        invariant start <= pos && |values| == |schema|
        invariant ReadFields(c, schema, data, start, size, 0, old(pos), fields) == ReadFields(c, schema, data, start, size, i, pos, values)
      {
        if pos - start >= size {
          pos := start + size;
          return ReadResult(Ok, pos, values);
        }
        ReadOneField(c, schema, data, start, size, i, pos, values);
        match c.read(schema[i], Suffix(data, pos), values[i])
        case Failed(f) =>
          return ReadResult(Err(f), pos, values);
        case Got(v, used) =>
          values, pos := values[i := v], pos + used;
      }
      pos := start + size;
      r := ReadResult(Ok, pos, values);
    }
  }
}
