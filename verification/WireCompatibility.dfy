/** What a verdict means on the wire: releases that do not break can talk to each other. */
module WireCompatibility {
  import opened Basics
  import opened Parcel
  import opened WireFormat
  import opened NestedParcels
  import opened Transactions
  import opened SurfaceModel
  import opened SurfaceDiff
  import opened DiffLaws
  import opened DiffAlgebra

  /** What the ordered members of a type declare, given what each line does. */
  function SchemaOf<T>(typeOf: string -> T, t: TypeDecl): (r: seq<T>)
    ensures |r| == |Rest(t.members)| && forall i :: 0 <= i < |r| ==> r[i] == typeOf(Rest(t.members)[i])
  {
    var lines := Rest(t.members);
    seq(|lines|, i requires 0 <= i < |lines| => typeOf(lines[i]))
  }

  /** Whatever survives a diff that does not break keeps its kind and its lines in place. */
  lemma LinesStayInPlace(id: Naming, o: Surface, n: Surface, q: string)
    requires WellNamed(id, o) && WellNamed(id, n) && Extends(id, o, n)
    requires q in o && o[q].kind != Enum
    ensures q in n && n[q].kind == o[q].kind && Rest(o[q].members) <= Rest(n[q].members)
    ensures o[q].kind == Union ==> Rest(o[q].members) == Rest(n[q].members)
  {
    assert KeptAt(id, q, o, n);
    assert NoHomonyms(id, o[q]) && NoHomonyms(id, n[q]);
    var before, after := Rest(o[q].members), Rest(n[q].members);
    ExtendsIsPrefix(id, o[q].kind, before, after);
    assert before <= after <==> IsPrefix(before, after);
  }

  lemma SchemasStayInPlace<T>(id: Naming, typeOf: string -> T, o: Surface, n: Surface, q: string)
    requires WellNamed(id, o) && WellNamed(id, n) && Extends(id, o, n)
    requires q in o && o[q].kind != Enum
    ensures q in n && n[q].kind == o[q].kind && SchemaOf(typeOf, o[q]) <= SchemaOf(typeOf, n[q])
    ensures o[q].kind == Union ==> SchemaOf(typeOf, o[q]) == SchemaOf(typeOf, n[q])
  {
    LinesStayInPlace(id, o, n, q);
  }

  // ---- releases -----------------------------------------------------------

  /** The shape a surface gives each of its parcelables and unions. */
  function ShapesOf<P>(typeOf: string -> Type<P>, s: Surface): map<string, Shape<P>> {
    map q | q in s && (s[q].kind == Parcelable || s[q].kind == Union) ::
      if s[q].kind == Parcelable then Fields(SchemaOf(typeOf, s[q])) else Arms(SchemaOf(typeOf, s[q]))
  }

  /** `rel` is built against the surface `s`: it mentions only declared types, and its new objects are
      values of their types. */
  ghost predicate BuiltAgainst<P, V>(rel: Release<P, V>, typeOf: string -> Type<P>, s: Surface) {
    rel.shapes == ShapesOf(typeOf, s) && Complete(rel) && SoundBlanks(rel)
  }

  /** Extension of surfaces is growth of releases, of all their types at once. */
  lemma ExtensionIsGrowth<P, V>(id: Naming, typeOf: string -> Type<P>, o: Surface, n: Surface, ro: Release<P, V>, rn: Release<P, V>)
    requires WellNamed(id, o) && WellNamed(id, n) && Extends(id, o, n)
    requires BuiltAgainst(ro, typeOf, o) && BuiltAgainst(rn, typeOf, n)
    ensures Older(ro, rn) && Related(ro, rn) && Related(rn, ro)
  {
    forall q | q in ro.shapes ensures q in rn.shapes && Grown(ro.shapes[q], rn.shapes[q]) {
      SchemasStayInPlace(id, typeOf, o, n, q);
    }
    OlderIsRelated(ro, rn);
  }

  // ---- parcelables --------------------------------------------------------

  /** At `start` lies the record of `values`, followed by `post`, and its size fits the header. */
  ghost predicate IsRecordAt<T, V>(c: Codec<T, V>, schema: seq<T>, values: seq<V>, data: Bytes, start: nat, post: Bytes)
    requires |schema| == |values|
  {
    && Body(c, schema, values).Some?
    && Suffix(data, start) == Record(Body(c, schema, values).value) + post
    && |Record(Body(c, schema, values).value)| < 0x8000_0000
    && start + |Record(Body(c, schema, values).value)| <= SIZE_MAX
  }

  /** Whatever is written for `q` by one release is read by the other, over any object of its own: it
      ends at the end of the record, and at every depth it holds the fields both releases know as they
      were written, and its own for the rest. */
  ghost predicate Exchanges<P, V(!new)>(c: Codec<P, V>, wr: Release<P, V>, rd: Release<P, V>, q: string)
    requires q in wr.shapes && q in rd.shapes
  {
    forall values, fields, data, start: nat, post ::
      && |values| == |wr.shapes[q].types| && FitsNamed(rd, q, Object(fields))
      && IsRecordAt(CodecOf(c, wr), wr.shapes[q].types, values, data, start, post) ==>
        var r := ConvertNamed(rd, q, Object(values), Object(fields));
        && |fields| == |rd.shapes[q].types| && r.Object?
        && ReadRecord(CodecOf(c, rd), rd.shapes[q].types, data, start, fields) ==
             ReadResult(Ok, start + |Record(Body(CodecOf(c, wr), wr.shapes[q].types, values).value)|, r.fields)
  }

  lemma RelatedExchange<P(!new), V(!new)>(c: Codec<P, V>, wr: Release<P, V>, rd: Release<P, V>, q: string)
    requires Lawful(c) && Related(wr, rd) && SoundBlanks(rd) && q in wr.shapes && q in rd.shapes && wr.shapes[q].Fields?
    ensures Exchanges(c, wr, rd, q)
  {
    forall values, fields, data, start: nat, post
      | |values| == |wr.shapes[q].types| && FitsNamed(rd, q, Object(fields)) && IsRecordAt(CodecOf(c, wr), wr.shapes[q].types, values, data, start, post)
      ensures
        var r := ConvertNamed(rd, q, Object(values), Object(fields));
        && |fields| == |rd.shapes[q].types| && r.Object?
        && ReadRecord(CodecOf(c, rd), rd.shapes[q].types, data, start, fields) ==
             ReadResult(Ok, start + |Record(Body(CodecOf(c, wr), wr.shapes[q].types, values).value)|, r.fields)
    {
      FieldsArrive(c, wr, rd, q, Object(values), Object(fields));
      var r := ConvertNamed(rd, q, Object(values), Object(fields));
      RecordRoundTrip(CodecOf(c, wr), wr.shapes[q].types, values, CodecOf(c, rd), rd.shapes[q].types, fields, r.fields, data, start, post);
    }
  }

  /** A diff that is not breaking really is wire-compatible, both ways, for every parcelable and
      whatever grew inside it. */
  lemma ParcelableUpgrade<P(!new), V(!new)>(id: Naming, typeOf: string -> Type<P>, o: Surface, n: Surface, q: string, c: Codec<P, V>,
                                            ro: Release<P, V>, rn: Release<P, V>)
    requires WellNamed(id, o) && WellNamed(id, n) && Classify(id, o, n) != Breaking
    requires BuiltAgainst(ro, typeOf, o) && BuiltAgainst(rn, typeOf, n)
    requires q in o && o[q].kind == Parcelable && Lawful(c)
    ensures q in ro.shapes && q in rn.shapes && Grown(ro.shapes[q], rn.shapes[q])
    ensures Exchanges(c, rn, ro, q) && Exchanges(c, ro, rn, q)
  {
    Classification(id, o, n);
    ExtensionIsGrowth(id, typeOf, o, n, ro, rn);
    assert q in ro.shapes;
    RelatedExchange(c, rn, ro, q);
    RelatedExchange(c, ro, rn, q);
  }

  /** Where nothing inside a parcelable grew, its fields themselves arrive: an older reader holds
      exactly its fields, a newer one all that was written and its own for the rest. */
  lemma MergedShape<P(!new), V(!new)>(rd: Release<P, V>, q: string, values: seq<Value<V>>, fields: seq<Value<V>>)
    requires q in rd.shapes && rd.shapes[q].Fields? && FitsNamed(rd, q, Object(fields)) && SoundBlanks(rd) && Complete(rd)
    requires forall i :: 0 <= i < |values| && i < |fields| ==> Fits(rd, rd.shapes[q].types[i], values[i])
    ensures ConvertNamed(rd, q, Object(values), Object(fields)) == Object(Merged(values, fields))
    ensures Merged(values, fields) == if |fields| <= |values| then values[..|fields|] else values + fields[|values|..]
  {
    var r := ConvertNamed(rd, q, Object(values), Object(fields));
    forall i | 0 <= i < |fields| ensures r.fields[i] == Merged(values, fields)[i] {
      if i < |values| {
        ConvertSame(rd, rd.shapes[q].types[i], values[i], fields[i]);
      }
    }
    assert r.fields == Merged(values, fields);
  }

  /** Within a chain of releases none of which breaks, later releases extend earlier ones. */
  lemma {:induction false} ChainExtends(id: Naming, chain: seq<Surface>, i: nat, j: nat)
    requires i <= j < |chain| && forall k :: 0 < k < |chain| ==> Step(id, chain, k) != Breaking
    ensures Extends(id, chain[i], chain[j])
  {
    if i == j {
      ExtendsReflexive(id, chain[i]);
    } else {
      ChainExtends(id, chain, i, j - 1);
      assert Step(id, chain, j) != Breaking;
      Classification(id, chain[j - 1], chain[j]);
      ExtendsTransitive(id, chain[i], chain[j - 1], chain[j]);
    }
  }

  /** Hence any two releases of such a chain that declare a parcelable can exchange it. */
  lemma ChainInterop<P(!new), V(!new)>(id: Naming, typeOf: string -> Type<P>, chain: seq<Surface>, i: nat, j: nat, q: string, c: Codec<P, V>,
                                       ri: Release<P, V>, rj: Release<P, V>)
    requires i < |chain| && j < |chain| && forall k :: 0 < k < |chain| ==> Step(id, chain, k) != Breaking
    requires WellNamed(id, chain[i]) && WellNamed(id, chain[j])
    requires BuiltAgainst(ri, typeOf, chain[i]) && BuiltAgainst(rj, typeOf, chain[j])
    requires q in chain[i] && q in chain[j] && chain[i][q].kind == Parcelable && Lawful(c)
    ensures q in ri.shapes && q in rj.shapes && Exchanges(c, ri, rj, q)
  {
    if i <= j {
      ChainExtends(id, chain, i, j);
      ExtensionIsGrowth(id, typeOf, chain[i], chain[j], ri, rj);
      assert q in ri.shapes;
    } else {
      ChainExtends(id, chain, j, i);
      ExtensionIsGrowth(id, typeOf, chain[j], chain[i], rj, ri);
      assert KeptAt(id, q, chain[j], chain[i]);
      assert q in ri.shapes && q in rj.shapes;
    }
    RelatedExchange(c, ri, rj, q);
  }

  // ---- interfaces ---------------------------------------------------------

  /** One side of a call, built against a release. */
  function Side<P, V>(c: Codec<P, V>, st: Codec<(), CallStatus>, rel: Release<P, V>, p: P, token: V): Wire<Type<P>, Value<V>> {
    Wire(CodecOf(c, rel), st, (t: Type<P>) => Blank(rel, t), Base(p), Leaf(token))
  }

  /** What a service of this release receives for `args`. */
  function Received<P, V>(rel: Release<P, V>, types: seq<Type<P>>, args: seq<Value<V>>): (r: seq<Value<V>>)
    requires |types| == |args|
    ensures |r| == |args| && forall j :: 0 <= j < |r| ==> r[j] == Convert(rel, types[j], args[j], Blank(rel, types[j]))
  {
    seq(|args|, j requires 0 <= j < |args| => Convert(rel, types[j], args[j], Blank(rel, types[j])))
  }

  /** What a caller of this release sees of an answer, in a variable that held `out`; of a one-way call it
      sees nothing. */
  function Seen<P, V>(rel: Release<P, V>, m: Method<Type<P>>, a: Answer<Value<V>>, out: Value<V>): Answer<Value<V>> {
    if m.oneway then Answer(Fine, None)
    else
      Answer(a.status,
             if a.status == Fine && m.result.Some? && a.value.Some? then Some(Convert(rel, m.result.value, a.value.value, out)) else None)
  }

  /** The service answers within its interface: a result where one is declared, and one that can be sent. */
  ghost predicate Implements<P, V>(c: Codec<P, V>, st: Codec<(), CallStatus>, rel: Release<P, V>, m: Method<Type<P>>, a: Answer<Value<V>>) {
    !m.oneway ==>
    && st.write((), a.status).Some?
    && (a.status == Fine && m.result.Some? ==> a.value.Some? && Sendable(c, rel, m.result.value, a.value.value))
  }

  ghost predicate KnownMethod<P, V>(rel: Release<P, V>, m: Method<Type<P>>) {
    (forall j :: 0 <= j < |m.args| ==> Known(rel, m.args[j])) && (m.result.Some? ==> Known(rel, m.result.value))
  }

  lemma SidesAgree<P(!new), V(!new)>(c: Codec<P, V>, st: Codec<(), CallStatus>, ro: Release<P, V>, rn: Release<P, V>, p: P, token: V)
    requires Lawful(c) && c.write(p, token).Some?
    ensures TokensAgree(Side(c, st, ro, p, token), Side(c, st, rn, p, token))
  {
    assert RoundTrips(c, p, token);
    assert Conveyed(c, c, p, token, rn.zero(p), token);
  }

  lemma {:induction false} ArgsArrive<P(!new), V(!new)>(c: Codec<P, V>, st: Codec<(), CallStatus>, rp: Release<P, V>, rs: Release<P, V>, p: P, token: V,
                                                        m: Method<Type<P>>, args: seq<Value<V>>)
    requires Lawful(c) && Related(rp, rs) && SoundBlanks(rs) && KnownMethod(rp, m) && KnownMethod(rs, m) && |m.args| == |args|
    requires forall j :: 0 <= j < |args| ==> Sendable(c, rp, m.args[j], args[j])
    ensures ArgsConveyed(Side(c, st, rp, p, token), Side(c, st, rs, p, token), m.args, args, Received(rs, m.args, args), |args|)
  {
    forall j | 0 <= j < |args|
      ensures Conveyed(CodecOf(c, rp), CodecOf(c, rs), m.args[j], args[j], Blank(rs, m.args[j]), Received(rs, m.args, args)[j])
    {
      BlankFits(rs, m.args[j]);
      Conveys(c, rp, rs, m.args[j], args[j], Blank(rs, m.args[j]));
    }
  }

  lemma {:induction false} AnswerArrives<P(!new), V(!new)>(c: Codec<P, V>, st: Codec<(), CallStatus>, rp: Release<P, V>, rs: Release<P, V>, p: P, token: V,
                                                           m: Method<Type<P>>, a: Answer<Value<V>>, out: Value<V>)
    requires Lawful(c) && Lawful(st) && Related(rs, rp) && SoundBlanks(rp) && KnownMethod(rp, m) && KnownMethod(rs, m)
    requires Implements(c, st, rs, m, a) && (m.result.Some? ==> Fits(rp, m.result.value, out))
    ensures AnswerConveyed(Side(c, st, rs, p, token), Side(c, st, rp, p, token), m, a, out, Seen(rp, m, a, out))
  {
    if !m.oneway {
      assert RoundTrips(st, (), a.status);
      if a.status == Fine && m.result.Some? {
        Conveys(c, rs, rp, m.result.value, a.value.value, out);
      }
    }
  }

  lemma {:induction false} KnownMethodGrows<P(!new), V(!new)>(o: Release<P, V>, n: Release<P, V>, m: Method<Type<P>>)
    requires Older(o, n) && KnownMethod(o, m)
    ensures KnownMethod(n, m)
  {
    forall j | 0 <= j < |m.args| ensures Known(n, m.args[j]) {
      KnownGrows(o, n, m.args[j]);
    }
    if m.result.Some? {
      KnownGrows(o, n, m.result.value);
    }
  }

  /** The methods of an interface, given what each line declares; an interface may be one-way as a whole. */
  function MethodsOf<P>(sigOf: (bool, string) -> Method<Type<P>>, t: TypeDecl): (r: seq<Method<Type<P>>>)
    ensures |r| == |Rest(t.members)| && forall i :: 0 <= i < |r| ==> r[i] == sigOf(t.oneway, Rest(t.members)[i])
  {
    SchemaOf((line: string) => sigOf(t.oneway, line), t)
  }

  lemma {:induction false} MethodsStayInPlace<P(!new)>(id: Naming, sigOf: (bool, string) -> Method<Type<P>>, o: Surface, n: Surface, q: string)
    requires WellNamed(id, o) && WellNamed(id, n) && Extends(id, o, n)
    requires q in o && o[q].kind == SurfaceModel.Interface
    ensures q in n && n[q].kind == SurfaceModel.Interface && MethodsOf(sigOf, o[q]) <= MethodsOf(sigOf, n[q])
  {
    LinesStayInPlace(id, o, n, q);
    assert KeptAt(id, q, o, n);
  }

  /** Between sides built against related releases: a call of a method that both have at the same place
      reaches it, the service gets the arguments as its own release sees them, and the caller the answer as
      its own release sees it. */
  ghost predicate CallsThrough<P, V>(c: Codec<P, V>, st: Codec<(), CallStatus>, rp: Release<P, V>, rs: Release<P, V>, p: P, token: V,
                                     proxy: seq<Method<Type<P>>>, service: seq<Method<Type<P>>>, i: nat,
                                     args: seq<Value<V>>, impl: (nat, seq<Value<V>>) -> Answer<Value<V>>, base: Remote,
                                     fallback: Option<(nat, seq<Value<V>>) -> Answer<Value<V>>>, out: Value<V>)
    requires i < |proxy| && |args| == |proxy[i].args|
  {
    var m, got := proxy[i], Received(rs, proxy[i].args, args);
    && Sent(Side(c, st, rp, p, token), m, args).Some?
    && Deliver(Side(c, st, rs, p, token), service, FIRST_CALL_TRANSACTION + i, Sent(Side(c, st, rp, p, token), m, args).value) == Delivered(i, got)
    && Call(Side(c, st, rp, p, token), proxy, i, args,
            (code, data) => OnTransactResult(Side(c, st, rs, p, token), service, impl, base, code, data), fallback, out)
       == Seen(rp, m, impl(i, got), out)
  }

  lemma {:induction false} RelatedCall<P(!new), V(!new)>(c: Codec<P, V>, st: Codec<(), CallStatus>, rp: Release<P, V>, rs: Release<P, V>, p: P, token: V,
                                                         proxy: seq<Method<Type<P>>>, service: seq<Method<Type<P>>>, i: nat,
                                                         args: seq<Value<V>>, impl: (nat, seq<Value<V>>) -> Answer<Value<V>>, base: Remote,
                                                         fallback: Option<(nat, seq<Value<V>>) -> Answer<Value<V>>>, out: Value<V>)
    requires Lawful(c) && Lawful(st) && c.write(p, token).Some?
    requires Related(rp, rs) && Related(rs, rp) && SoundBlanks(rp) && SoundBlanks(rs)
    requires i < |proxy| && i < |service| && proxy[i] == service[i] && KnownMethod(rp, proxy[i]) && KnownMethod(rs, proxy[i])
    requires Callable(c, st, rp, rs, proxy[i], i, args, impl, out)
    ensures CallsThrough(c, st, rp, rs, p, token, proxy, service, i, args, impl, base, fallback, out)
  {
    var m, got := proxy[i], Received(rs, proxy[i].args, args);
    SidesAgree(c, st, rp, rs, p, token);
    ArgsArrive(c, st, rp, rs, p, token, m, args);
    AnswerArrives(c, st, rp, rs, p, token, m, impl(i, got), out);
    SharedMethodIsCalled(Side(c, st, rp, p, token), proxy, Side(c, st, rs, p, token), service, i, args, got, impl, base, fallback, out,
                         Seen(rp, m, impl(i, got), out));
  }

  /** The arguments can be sent, the service answers within its interface, and the caller's variable is one
      of its own. */
  ghost predicate Callable<P, V>(c: Codec<P, V>, st: Codec<(), CallStatus>, rp: Release<P, V>, rs: Release<P, V>, m: Method<Type<P>>, i: nat,
                                 args: seq<Value<V>>, impl: (nat, seq<Value<V>>) -> Answer<Value<V>>, out: Value<V>) {
    && |args| == |m.args| && (forall j :: 0 <= j < |args| ==> Sendable(c, rp, m.args[j], args[j]))
    && Implements(c, st, rs, m, impl(i, Received(rs, m.args, args)))
    && (m.result.Some? ==> Fits(rp, m.result.value, out))
  }

  /** A client built against the old interface reaches the same method of the new service, whatever types
      grew in between. */
  lemma {:induction false} InterfaceUpgrade<P(!new), V(!new)>(id: Naming, typeOf: string -> Type<P>, sigOf: (bool, string) -> Method<Type<P>>,
                                                              o: Surface, n: Surface, q: string,
                                                              c: Codec<P, V>, st: Codec<(), CallStatus>, ro: Release<P, V>, rn: Release<P, V>, p: P, token: V,
                                                              i: nat, args: seq<Value<V>>, impl: (nat, seq<Value<V>>) -> Answer<Value<V>>, base: Remote,
                                                              fallback: Option<(nat, seq<Value<V>>) -> Answer<Value<V>>>, out: Value<V>)
    requires WellNamed(id, o) && WellNamed(id, n) && Classify(id, o, n) != Breaking
    requires BuiltAgainst(ro, typeOf, o) && BuiltAgainst(rn, typeOf, n) && Lawful(c) && Lawful(st) && c.write(p, token).Some?
    requires q in o && o[q].kind == SurfaceModel.Interface && i < |MethodsOf(sigOf, o[q])| && KnownMethod(ro, MethodsOf(sigOf, o[q])[i])
    requires Callable(c, st, ro, rn, MethodsOf(sigOf, o[q])[i], i, args, impl, out)
    ensures q in n && n[q].kind == SurfaceModel.Interface
    ensures CallsThrough(c, st, ro, rn, p, token, MethodsOf(sigOf, o[q]), MethodsOf(sigOf, n[q]), i, args, impl, base, fallback, out)
  {
    Classification(id, o, n);
    ExtensionIsGrowth(id, typeOf, o, n, ro, rn);
    MethodsStayInPlace(id, sigOf, o, n, q);
    KnownMethodGrows(ro, rn, MethodsOf(sigOf, o[q])[i]);
    RelatedCall(c, st, ro, rn, p, token, MethodsOf(sigOf, o[q]), MethodsOf(sigOf, n[q]), i, args, impl, base, fallback, out);
  }

  /** So does a client built against the new interface that calls an old service, for the methods the old one
      has. */
  lemma {:induction false} NewClientOldService<P(!new), V(!new)>(id: Naming, typeOf: string -> Type<P>, sigOf: (bool, string) -> Method<Type<P>>,
                                                                 o: Surface, n: Surface, q: string,
                                                                 c: Codec<P, V>, st: Codec<(), CallStatus>, ro: Release<P, V>, rn: Release<P, V>, p: P, token: V,
                                                                 i: nat, args: seq<Value<V>>, impl: (nat, seq<Value<V>>) -> Answer<Value<V>>, base: Remote,
                                                                 fallback: Option<(nat, seq<Value<V>>) -> Answer<Value<V>>>, out: Value<V>)
    requires WellNamed(id, o) && WellNamed(id, n) && Classify(id, o, n) != Breaking
    requires BuiltAgainst(ro, typeOf, o) && BuiltAgainst(rn, typeOf, n) && Lawful(c) && Lawful(st) && c.write(p, token).Some?
    requires q in o && o[q].kind == SurfaceModel.Interface && i < |MethodsOf(sigOf, o[q])| && KnownMethod(ro, MethodsOf(sigOf, o[q])[i])
    requires Callable(c, st, rn, ro, MethodsOf(sigOf, o[q])[i], i, args, impl, out)
    ensures q in n && n[q].kind == SurfaceModel.Interface && i < |MethodsOf(sigOf, n[q])| && MethodsOf(sigOf, n[q])[i] == MethodsOf(sigOf, o[q])[i]
    ensures CallsThrough(c, st, rn, ro, p, token, MethodsOf(sigOf, n[q]), MethodsOf(sigOf, o[q]), i, args, impl, base, fallback, out)
  {
    Classification(id, o, n);
    ExtensionIsGrowth(id, typeOf, o, n, ro, rn);
    MethodsStayInPlace(id, sigOf, o, n, q);
    KnownMethodGrows(ro, rn, MethodsOf(sigOf, o[q])[i]);
    RelatedCall(c, st, rn, ro, p, token, MethodsOf(sigOf, n[q]), MethodsOf(sigOf, o[q]), i, args, impl, base, fallback, out);
  }

  /** Arguments whose types did not grow are received as they were sent. */
  lemma {:induction false} ReceivedAsSent<P(!new), V(!new)>(rel: Release<P, V>, m: Method<Type<P>>, args: seq<Value<V>>)
    requires SoundBlanks(rel) && Complete(rel) && KnownMethod(rel, m) && |args| == |m.args|
    requires forall j :: 0 <= j < |args| ==> Fits(rel, m.args[j], args[j])
    ensures Received(rel, m.args, args) == args
  {
    forall j | 0 <= j < |args| ensures Received(rel, m.args, args)[j] == args[j] {
      BlankFits(rel, m.args[j]);
      ConvertSame(rel, m.args[j], args[j], Blank(rel, m.args[j]));
    }
  }

  /** A result whose types did not grow is seen as it was answered. */
  lemma {:induction false} SeenAsAnswered<P(!new), V(!new)>(rel: Release<P, V>, m: Method<Type<P>>, a: Answer<Value<V>>, out: Value<V>)
    requires SoundBlanks(rel) && Complete(rel) && KnownMethod(rel, m) && !m.oneway && a.status == Fine && m.result.Some? && a.value.Some?
    requires Fits(rel, m.result.value, a.value.value) && Fits(rel, m.result.value, out)
    ensures Seen(rel, m, a, out) == a
  {
    ConvertSame(rel, m.result.value, a.value.value, out);
  }

  // ---- unions -------------------------------------------------------------

  /** Why an appended arm breaks: a reader of one version understands a writer of another exactly
      when it knows the arm that was written. */
  lemma UnionNeedsItsArm<P(!new), V(!new)>(c: Codec<P, V>, wr: Release<P, V>, rd: Release<P, V>, q: string, v: Value<V>, u: Value<V>,
                                           r: Value<V>, rest: Bytes)
    requires q in wr.shapes && q in rd.shapes && wr.shapes[q].Arms? && rd.shapes[q].Arms?
    requires Comparable(wr.shapes[q].types, rd.shapes[q].types) && EncodeNamed(c, wr, q, v).Some?
    requires var t := wr.shapes[q].types[v.tag]; Conveyed(CodecOf(c, wr), CodecOf(c, rd), t, v.value, Blank(rd, t), r)
    ensures var w := EncodeNamed(c, wr, q, v).value;
      DecodeNamed(c, rd, q, w + rest, u) == if v.tag < |rd.shapes[q].types| then Got(Choice(v.tag, r), |w|) else Failed(BadValue)
  {
    var arms := wr.shapes[q].types;
    var x := Encode(c, wr, arms[v.tag], v.value).value;
    Regroup(EncodeInt32(v.tag), x, rest);
    FrontInt32(v.tag, x + rest);
    if v.tag < |rd.shapes[q].types| {
      assert rd.shapes[q].types[v.tag] == arms[v.tag];
      assert CodecOf(c, rd).read(arms[v.tag], x + rest, Blank(rd, arms[v.tag])) == Got(r, |x|);
    }
  }
}
