/** Calls across the binder: a proxy that packs arguments, a stub that unpacks and dispatches them. */
module Transactions {
  import opened Basics
  import opened Parcel
  import opened WireFormat

  /** What a method takes, what it returns if anything, and whether the caller waits for it. */
  datatype Method<T> = Method(args: seq<T>, result: Option<T>, oneway: bool)

  datatype CallStatus = Fine | Exception(code: int) | TransportError(fault: Fault)

  /** What a caller sees. */
  datatype Answer<V> = Answer(status: CallStatus, value: Option<V>)

  /** What one side works with: its encodings, the value a variable of each type starts with, and the
      interface token. */
  datatype Wire<!T, !V> = Wire(codec: Codec<T, V>, statuses: Codec<(), CallStatus>, blank: T -> V, tokenType: T, token: V)

  const FIRST_CALL_TRANSACTION: nat := 1

  const EX_NULL_POINTER: int := -4

  /** Who answers a transaction. */
  type Remote = (nat, Bytes) -> (Status, Bytes)

  // ---- the stub -----------------------------------------------------------

  datatype ArgsRead<V> = Args(values: seq<V>) | ArgsFailed(fault: Fault)

  /** Reads the arguments from the `i`-th on. */
  function ReadArgs<T, V>(w: Wire<T, V>, types: seq<T>, data: Bytes, pos: nat, i: nat, values: seq<V>): ArgsRead<V>
    requires i <= |types|
    decreases |types| - i
  {
    if i == |types| then Args(values)
    else
      match w.codec.read(types[i], Suffix(data, pos), w.blank(types[i]))
      case Failed(f) => ArgsFailed(f)
      case Got(v, used) => ReadArgs(w, types, data, pos + used, i + 1, values + [v])
  }

  /** Writes the status of a method that has run, then its result if there is one; nothing for a one-way
      method. */
  function Reply<T, V>(w: Wire<T, V>, m: Method<T>, a: Answer<V>): (Status, Bytes) {
    if m.oneway then (Ok, [])
    else
      match w.statuses.write((), a.status)
      case None => (Err(Other(0)), [])
      case Some(s) =>
        if a.status != Fine || m.result.None? then (Ok, s)
        else if a.value.None? then (Err(Other(0)), s)
        else
          match w.codec.write(m.result.value, a.value.value)
          case None => (Err(Other(0)), s)
          case Some(v) => (Ok, s + v)
  }

  /** What a transaction comes to: a call of the `i`-th method, a refusal, or a code of no method. */
  datatype Delivery<V> = Delivered(i: nat, args: seq<V>) | Refused(fault: Fault) | Foreign

  function Deliver<T, V(==)>(w: Wire<T, V>, methods: seq<Method<T>>, code: nat, data: Bytes): (d: Delivery<V>)
    ensures d.Delivered? ==> d.i < |methods|
  {
    if code < FIRST_CALL_TRANSACTION || code - FIRST_CALL_TRANSACTION >= |methods| then Foreign
    else
      var i := code - FIRST_CALL_TRANSACTION;
      match w.codec.read(w.tokenType, data, w.blank(w.tokenType))
      case Failed(_) => Refused(BadType)
      case Got(token, used) =>
        if token != w.token then Refused(BadType)
        else
          match ReadArgs(w, methods[i].args, data, used, 0, [])
          case ArgsFailed(f) => Refused(f)
          case Args(values) => Delivered(i, values)
  }

  /** `base` is what answers the codes that are no method of the interface. */
  function Dispatch<T, V(==)>(w: Wire<T, V>, methods: seq<Method<T>>, impl: (nat, seq<V>) -> Answer<V>, base: Remote,
                              code: nat, data: Bytes): (Status, Bytes)
  {
    match Deliver(w, methods, code, data)
    case Foreign => base(code, data)
    case Refused(f) => (Err(f), [])
    case Delivered(i, args) => Reply(w, methods[i], impl(i, args))
  }

  /** A null where none is allowed is reported as an exception in the reply. */
  function OnTransactResult<T, V(==)>(w: Wire<T, V>, methods: seq<Method<T>>, impl: (nat, seq<V>) -> Answer<V>, base: Remote,
                                      code: nat, data: Bytes): (Status, Bytes)
  {
    var r := Dispatch(w, methods, impl, base, code, data);
    if r.0 != Err(UnexpectedNull) then r
    else
      match w.statuses.write((), Exception(EX_NULL_POINTER))
      case None => (Err(Other(0)), [])
      case Some(s) => (Ok, s)
  }

  method OnTransact<T, V(==)>(w: Wire<T, V>, methods: seq<Method<T>>, impl: (nat, seq<V>) -> Answer<V>, base: Remote, code: nat,
                              data: ParcelBuffer, reply: ParcelBuffer) returns (status: Status)
    requires data != reply && data.pos == 0 && reply.data == [] && reply.pos == 0
    modifies data`pos, reply
    ensures (status, reply.data) == OnTransactResult(w, methods, impl, base, code, data.data)
  {
    status := Ok;
    if code < FIRST_CALL_TRANSACTION || code - FIRST_CALL_TRANSACTION >= |methods| {
      var r := base(code, data.data);
      status, reply.data, reply.pos := r.0, r.1, |r.1|;
    } else {
      var m := methods[code - FIRST_CALL_TRANSACTION];
      var token := w.codec.read(w.tokenType, data.data, w.blank(w.tokenType));
      if token.Failed? || token.value != w.token {
        return Err(BadType);
      }
      data.pos := token.used;
      var args := ReadAllArgs(w, m.args, data);
      if args.Args? {
        status := WriteReply(w, m, impl(code - FIRST_CALL_TRANSACTION, args.values), reply);
      } else {
        status := Err(args.fault);
      }
    }
    if status == Err(UnexpectedNull) {
      reply.data, reply.pos := [], 0;
      status := WriteStatus(w, Exception(EX_NULL_POINTER), reply);
    }
  }

  method ReadAllArgs<T, V>(w: Wire<T, V>, types: seq<T>, data: ParcelBuffer) returns (r: ArgsRead<V>)
    modifies data`pos
    ensures r == ReadArgs(w, types, data.data, old(data.pos), 0, [])
  {
    var values := [];
    for i := 0 to |types|
      invariant ReadArgs(w, types, data.data, old(data.pos), 0, []) == ReadArgs(w, types, data.data, data.pos, i, values)
    {
      match w.codec.read(types[i], Suffix(data.data, data.pos), w.blank(types[i]))
      case Failed(f) =>
        return ArgsFailed(f);
      case Got(v, used) =>
        values, data.pos := values + [v], data.pos + used;
    }
    r := Args(values);
  }

  method WriteStatus<T, V>(w: Wire<T, V>, s: CallStatus, reply: ParcelBuffer) returns (status: Status)
    requires reply.data == [] && reply.pos == 0
    modifies reply
    ensures match w.statuses.write((), s)
      case None => status == Err(Other(0)) && reply.data == []
      case Some(b) => status == Ok && reply.data == b && reply.pos == |b|
  {
    var b := w.statuses.write((), s);
    if b.None? {
      return Err(Other(0));
    }
    reply.WriteBytes(b.value);
    status := Ok;
  }

  method WriteReply<T, V>(w: Wire<T, V>, m: Method<T>, a: Answer<V>, reply: ParcelBuffer) returns (status: Status)
    requires reply.data == [] && reply.pos == 0
    modifies reply
    ensures (status, reply.data) == Reply(w, m, a)
  {
    if m.oneway {
      return Ok;
    }
    status := WriteStatus(w, a.status, reply);
    if status != Ok || a.status != Fine || m.result.None? {
      return;
    }
    if a.value.None? {
      return Err(Other(0));
    }
    var b := w.codec.write(m.result.value, a.value.value);
    if b.None? {
      return Err(Other(0));
    }
    reply.WriteBytes(b.value);
    assert reply.data == w.statuses.write((), a.status).value + b.value;
  }

  // ---- the proxy ----------------------------------------------------------

  /** `out` is what the caller's result variable holds before. */
  function Unpack<T, V>(w: Wire<T, V>, m: Method<T>, reply: Bytes, out: V): Answer<V> {
    match w.statuses.read((), reply, Fine)
    case Failed(f) => Answer(TransportError(f), None)
    case Got(s, used) =>
      if s != Fine || m.result.None? then Answer(s, None)
      else
        match w.codec.read(m.result.value, Suffix(reply, used), out)
        case Failed(f) => Answer(TransportError(f), None)
        case Got(v, _) => Answer(Fine, Some(v))
  }

  /** One call: token and arguments go out under the method's transaction code; an unknown transaction
      falls back on a default implementation if there is one.  A one-way call reads no reply. */
  function Call<T, V>(w: Wire<T, V>, methods: seq<Method<T>>, i: nat, args: seq<V>, remote: Remote,
                      fallback: Option<(nat, seq<V>) -> Answer<V>>, out: V): Answer<V>
    requires i < |methods| && |args| == |methods[i].args|
  {
    match (w.codec.write(w.tokenType, w.token), Body(w.codec, methods[i].args, args))
    case (Some(t), Some(b)) =>
      var (status, reply) := remote(FIRST_CALL_TRANSACTION + i, t + b);
      if status == Err(UnknownTransaction) && fallback.Some? then fallback.value(i, args)
      else if status != Ok then Answer(TransportError(status.fault), None)
      else if methods[i].oneway then Answer(Fine, None)
      else Unpack(w, methods[i], reply, out)
    case _ => Answer(TransportError(Other(0)), None)
  }

  method CallThrough<T, V>(w: Wire<T, V>, methods: seq<Method<T>>, i: nat, args: seq<V>, remote: Remote,
                           fallback: Option<(nat, seq<V>) -> Answer<V>>, out: V) returns (a: Answer<V>)
    requires i < |methods| && |args| == |methods[i].args|
    ensures a == Call(w, methods, i, args, remote, fallback, out)
  {
    var data := new ParcelBuffer();
    var token := w.codec.write(w.tokenType, w.token);
    if token.None? {
      return Answer(TransportError(Other(0)), None);
    }
    data.WriteBytes(token.value);
    var status := data.WriteFields(w.codec, methods[i].args, args);
    if status != Ok {
      return Answer(TransportError(Other(0)), None);
    }
    assert data.data == token.value + Body(w.codec, methods[i].args, args).value;
    var r := remote(FIRST_CALL_TRANSACTION + i, data.data);
    if r.0 == Err(UnknownTransaction) && fallback.Some? {
      return fallback.value(i, args);
    }
    if r.0 != Ok {
      return Answer(TransportError(r.0.fault), None);
    }
    if methods[i].oneway {
      return Answer(Fine, None);
    }
    a := Unpack(w, methods[i], r.1, out);
  }

  // ---- a call is a call ---------------------------------------------------

  /** The arguments a stub receives when a proxy sends `args`. */
  ghost predicate ArgsConveyed<T, V>(wp: Wire<T, V>, ws: Wire<T, V>, types: seq<T>, args: seq<V>, received: seq<V>, k: nat)
    requires |args| == |types| && k <= |types| && k <= |received|
  {
    forall j :: 0 <= j < k ==> Conveyed(wp.codec, ws.codec, types[j], args[j], ws.blank(types[j]), received[j])
  }

  /** The answer a caller sees when the service answers `a`: the same status, and the result as it is
      conveyed into the caller's variable; nothing of it when the call is one-way. */
  ghost predicate AnswerConveyed<T, V>(ws: Wire<T, V>, wp: Wire<T, V>, m: Method<T>, a: Answer<V>, out: V, seen: Answer<V>) {
    if m.oneway then seen == Answer(Fine, None)
    else TwoWayConveyed(ws, wp, m, a, out, seen)
  }

  ghost predicate TwoWayConveyed<T, V>(ws: Wire<T, V>, wp: Wire<T, V>, m: Method<T>, a: Answer<V>, out: V, seen: Answer<V>) {
    && Conveyed(ws.statuses, wp.statuses, (), a.status, Fine, a.status)
    && seen.status == a.status
    && if a.status == Fine && m.result.Some? then
         && a.value.Some? && seen.value.Some?
         && Conveyed(ws.codec, wp.codec, m.result.value, a.value.value, out, seen.value.value)
       else seen.value.None?
  }

  ghost predicate TokensAgree<T, V>(wp: Wire<T, V>, ws: Wire<T, V>) {
    && wp.tokenType == ws.tokenType && wp.token == ws.token
    && Conveyed(wp.codec, ws.codec, ws.tokenType, ws.token, ws.blank(ws.tokenType), ws.token)
  }

  /** The arguments up to the `k`-th are read as they are conveyed. */
  lemma {:induction false} ArgsReadBack<T, V>(wp: Wire<T, V>, ws: Wire<T, V>, types: seq<T>, args: seq<V>, received: seq<V>, k: nat,
                                              data: Bytes, pos: nat, i: nat, rest: Bytes) returns (pos': nat)
    requires |args| == |types| && i <= k <= |types| && k <= |received| && BodyFrom(wp.codec, types, args, i).Some?
    requires ArgsConveyed(wp, ws, types, args, received, k)
    requires Suffix(data, pos) == BodyFrom(wp.codec, types, args, i).value + rest
    ensures BodyFrom(wp.codec, types, args, k).Some? && Suffix(data, pos') == BodyFrom(wp.codec, types, args, k).value + rest
    ensures ReadArgs(ws, types, data, pos, i, received[..i]) == ReadArgs(ws, types, data, pos', k, received[..k])
    decreases k - i
  {
    if i == k {
      pos' := pos;
    } else {
      var f := wp.codec.write(types[i], args[i]).value;
      var body := BodyFrom(wp.codec, types, args, i + 1).value;
      Regroup(f, body, rest);
      assert Conveyed(wp.codec, ws.codec, types[i], args[i], ws.blank(types[i]), received[i]);
      SuffixOn(data, pos, f, body + rest);
      assert received[..i] + [received[i]] == received[..i + 1];
      pos' := ArgsReadBack(wp, ws, types, args, received, k, data, pos + |f|, i + 1, rest);
    }
  }

  /** A value that is written but refused on reading, as a null where none is allowed. */
  ghost predicate Rejected<T, V>(cw: Codec<T, V>, cr: Codec<T, V>, t: T, v: V, u: V) {
    cw.write(t, v).Some? && forall rest :: cr.read(t, cw.write(t, v).value + rest, u) == Failed(UnexpectedNull)
  }

  lemma RejectedStops<T, V>(wp: Wire<T, V>, ws: Wire<T, V>, types: seq<T>, args: seq<V>, received: seq<V>, k: nat, data: Bytes, pos: nat)
    requires |args| == |types| && k < |types| && k <= |received| && BodyFrom(wp.codec, types, args, k).Some?
    requires Rejected(wp.codec, ws.codec, types[k], args[k], ws.blank(types[k]))
    requires Suffix(data, pos) == BodyFrom(wp.codec, types, args, k).value + []
    ensures ReadArgs(ws, types, data, pos, k, received[..k]) == ArgsFailed(UnexpectedNull)
  {
    var f, body := wp.codec.write(types[k], args[k]).value, BodyFrom(wp.codec, types, args, k + 1).value;
    Regroup(f, body, []);
    assert ws.codec.read(types[k], f + (body + []), ws.blank(types[k])) == Failed(UnexpectedNull);
  }

  lemma {:induction false} ArgsAreWritten<T, V>(c: Codec<T, V>, types: seq<T>, args: seq<V>, i: nat)
    requires |args| == |types| && i <= |types| && forall j :: 0 <= j < |types| ==> c.write(types[j], args[j]).Some?
    ensures BodyFrom(c, types, args, i).Some?
    decreases |types| - i
  {
    if i < |types| {
      ArgsAreWritten(c, types, args, i + 1);
    }
  }

  lemma ReplyReadBack<T, V>(ws: Wire<T, V>, wp: Wire<T, V>, m: Method<T>, a: Answer<V>, out: V, seen: Answer<V>)
    requires !m.oneway && TwoWayConveyed(ws, wp, m, a, out, seen)
    ensures Reply(ws, m, a).0 == Ok && Unpack(wp, m, Reply(ws, m, a).1, out) == seen
  {
    var s := ws.statuses.write((), a.status).value;
    if a.status == Fine && m.result.Some? {
      var v := ws.codec.write(m.result.value, a.value.value).value;
      assert v + [] == v;
      SuffixOn(s + v, 0, s, v);
    } else {
      assert s + [] == s;
    }
  }

  /** The bytes a proxy sends. */
  function Sent<T, V>(w: Wire<T, V>, m: Method<T>, args: seq<V>): Option<Bytes>
    requires |args| == |m.args|
  {
    match (w.codec.write(w.tokenType, w.token), Body(w.codec, m.args, args))
    case (Some(t), Some(b)) => Some(t + b)
    case _ => None
  }

  /** What is sent for a method that both sides have at the same place is delivered to that method, with the
      arguments as they are conveyed. */
  lemma {:induction false} SentIsDelivered<T, V>(wp: Wire<T, V>, ws: Wire<T, V>, methods: seq<Method<T>>, i: nat, args: seq<V>, received: seq<V>)
    requires i < |methods| && |args| == |received| == |methods[i].args|
    requires TokensAgree(wp, ws) && ArgsConveyed(wp, ws, methods[i].args, args, received, |args|)
    ensures Sent(wp, methods[i], args).Some?
    ensures Deliver(ws, methods, 1 + i, Sent(wp, methods[i], args).value) == Delivered(i, received)
  {
    var types := methods[i].args;
    ArgsAreWritten(wp.codec, types, args, 0);
    var t, b := wp.codec.write(wp.tokenType, wp.token).value, Body(wp.codec, types, args).value;
    SuffixOn(t + b, 0, t, b);
    assert b + [] == b && received[..0] == [];
    var end := ArgsReadBack(wp, ws, types, args, received, |types|, t + b, |t|, 0, []);
    assert received[..|types|] == received;
    assert t + b == wp.codec.write(wp.tokenType, wp.token).value + b;
  }

  /** Every call of a method that both sides have at the same place reaches it, whichever side is newer; the
      service gets the arguments, and the caller the answer, as each is conveyed between the two sides. */
  lemma {:induction false} SharedMethodIsCalled<T, V>(wp: Wire<T, V>, proxy: seq<Method<T>>, ws: Wire<T, V>, service: seq<Method<T>>, i: nat,
                                                      args: seq<V>, received: seq<V>, impl: (nat, seq<V>) -> Answer<V>, base: Remote,
                                                      fallback: Option<(nat, seq<V>) -> Answer<V>>, out: V, seen: Answer<V>)
    requires i < |proxy| && i < |service| && proxy[i] == service[i] && |args| == |received| == |proxy[i].args|
    requires TokensAgree(wp, ws) && ArgsConveyed(wp, ws, proxy[i].args, args, received, |args|)
    requires AnswerConveyed(ws, wp, proxy[i], impl(i, received), out, seen)
    ensures Sent(wp, proxy[i], args).Some?
    ensures Deliver(ws, service, 1 + i, Sent(wp, proxy[i], args).value) == Delivered(i, received)
    ensures Call(wp, proxy, i, args, (code, data) => OnTransactResult(ws, service, impl, base, code, data), fallback, out) == seen
  {
    SentIsDelivered(wp, ws, service, i, args, received);
    if !proxy[i].oneway {
      ReplyReadBack(ws, wp, proxy[i], impl(i, received), out, seen);
    }
  }

  /** A null where none is allowed never reaches the service: the caller gets an exception, unless it does
      not wait for an answer. */
  lemma NullArgumentIsReported<T, V>(wp: Wire<T, V>, ws: Wire<T, V>, methods: seq<Method<T>>, i: nat, args: seq<V>, received: seq<V>, k: nat,
                                     impl: (nat, seq<V>) -> Answer<V>, base: Remote,
                                     fallback: Option<(nat, seq<V>) -> Answer<V>>, out: V)
    requires i < |methods| && |args| == |methods[i].args| && k < |args| && k <= |received|
    requires TokensAgree(wp, ws)
    requires Conveyed(ws.statuses, wp.statuses, (), Exception(-4), Fine, Exception(-4))
    requires forall j :: 0 <= j < |args| ==> wp.codec.write(methods[i].args[j], args[j]).Some?
    requires ArgsConveyed(wp, ws, methods[i].args, args, received, k)
    requires Rejected(wp.codec, ws.codec, methods[i].args[k], args[k], ws.blank(methods[i].args[k]))
    ensures Call(wp, methods, i, args, (code, data) => OnTransactResult(ws, methods, impl, base, code, data), fallback, out)
            == Answer(if methods[i].oneway then Fine else Exception(-4), None)
    ensures Sent(wp, methods[i], args).Some?
    ensures Deliver(ws, methods, 1 + i, Sent(wp, methods[i], args).value) == Refused(UnexpectedNull)
  {
    ArgsAreWritten(wp.codec, methods[i].args, args, 0);
    RejectedReply(wp, ws, methods, i, args, received, k, impl, base);
    var s := ws.statuses.write((), Exception(-4)).value;
    assert s + [] == s;
  }

  lemma {:induction false} RejectedReply<T, V>(wp: Wire<T, V>, ws: Wire<T, V>, methods: seq<Method<T>>, i: nat,
                                               args: seq<V>, received: seq<V>, k: nat, impl: (nat, seq<V>) -> Answer<V>, base: Remote)
    requires i < |methods| && |args| == |methods[i].args| && k < |args| && k <= |received|
    requires TokensAgree(wp, ws) && ws.statuses.write((), Exception(-4)).Some?
    requires Body(wp.codec, methods[i].args, args).Some? && ArgsConveyed(wp, ws, methods[i].args, args, received, k)
    requires Rejected(wp.codec, ws.codec, methods[i].args[k], args[k], ws.blank(methods[i].args[k]))
    ensures var data := wp.codec.write(wp.tokenType, wp.token).value + Body(wp.codec, methods[i].args, args).value;
      && Deliver(ws, methods, 1 + i, data) == Refused(UnexpectedNull)
      && OnTransactResult(ws, methods, impl, base, 1 + i, data) ==
           (Ok, ws.statuses.write((), Exception(-4)).value)
  {
    var types := methods[i].args;
    var t, b := wp.codec.write(wp.tokenType, wp.token).value, Body(wp.codec, types, args).value;
    SuffixOn(t + b, 0, t, b);
    assert b + [] == b && received[..0] == [];
    var at := ArgsReadBack(wp, ws, types, args, received, k, t + b, |t|, 0, []);
    RejectedStops(wp, ws, types, args, received, k, t + b, at);
  }

  ghost predicate Ignores(base: Remote, code: nat) {
    forall data :: base(code, data).0 == Err(UnknownTransaction)
  }

  /** A method the service does not know yet is handed to what answers other codes; where that does not
      know it either, the caller's default implementation answers, or the call fails. */
  lemma NewMethodOldService<T, V>(wp: Wire<T, V>, newer: seq<Method<T>>, ws: Wire<T, V>, older: seq<Method<T>>, i: nat, args: seq<V>,
                                  impl: (nat, seq<V>) -> Answer<V>, base: Remote,
                                  fallback: Option<(nat, seq<V>) -> Answer<V>>, out: V)
    requires |older| <= i < |newer| && |args| == |newer[i].args|
    requires wp.codec.write(wp.tokenType, wp.token).Some?
    requires forall j :: 0 <= j < |args| ==> wp.codec.write(newer[i].args[j], args[j]).Some?
    requires Ignores(base, 1 + i)
    ensures Call(wp, newer, i, args, (code, data) => OnTransactResult(ws, older, impl, base, code, data), fallback, out)
            == if fallback.Some? then fallback.value(i, args) else Answer(TransportError(UnknownTransaction), None)
  {
    ArgsAreWritten(wp.codec, newer[i].args, args, 0);
  }

  // ---- what is turned away ------------------------------------------------

  /** The token at the front of the data is not that of the interface. */
  ghost predicate WrongToken<T, V(!new)>(w: Wire<T, V>, data: Bytes) {
    forall v, used :: w.codec.read(w.tokenType, data, w.blank(w.tokenType)) == Got(v, used) ==> v != w.token
  }

  /** Codes run from 1; under one of them, data with another interface's token, or with none that can be
      read, is refused as of a bad type, and the service is not called. */
  lemma {:induction false} TurnedAway<T, V(!new)>(w: Wire<T, V>, methods: seq<Method<T>>, impl: (nat, seq<V>) -> Answer<V>, base: Remote, code: nat, data: Bytes)
    ensures Deliver(w, methods, code, data) == Foreign <==> code == 0 || code > |methods|
    ensures 1 <= code <= |methods| && WrongToken(w, data) ==>
      Deliver(w, methods, code, data) == Refused(BadType) && OnTransactResult(w, methods, impl, base, code, data) == (Err(BadType), [])
    ensures Deliver(w, methods, code, data).Delivered? ==> !WrongToken(w, data) && Deliver(w, methods, code, data).i == code - 1
  {
    var token := w.codec.read(w.tokenType, data, w.blank(w.tokenType));
    if token.Got? {
      assert token == Got(token.value, token.used);
    }
  }

  /** A caller of another interface gets that refusal. */
  lemma {:induction false} OtherInterface<T, V(!new)>(wp: Wire<T, V>, proxy: seq<Method<T>>, ws: Wire<T, V>, service: seq<Method<T>>, i: nat,
                                                      args: seq<V>, token: V, impl: (nat, seq<V>) -> Answer<V>, base: Remote,
                                                      fallback: Option<(nat, seq<V>) -> Answer<V>>, out: V)
    requires i < |proxy| && i < |service| && |args| == |proxy[i].args| && Sent(wp, proxy[i], args).Some?
    requires wp.tokenType == ws.tokenType && token != ws.token
    requires Conveyed(wp.codec, ws.codec, wp.tokenType, wp.token, ws.blank(ws.tokenType), token)
    ensures Call(wp, proxy, i, args, (code, data) => OnTransactResult(ws, service, impl, base, code, data), fallback, out)
            == Answer(TransportError(BadType), None)
  {
    var t, b := wp.codec.write(wp.tokenType, wp.token).value, Body(wp.codec, proxy[i].args, args).value;
    assert ws.codec.read(ws.tokenType, t + b, ws.blank(ws.tokenType)) == Got(token, |t|);
    TurnedAway(ws, service, impl, base, 1 + i, t + b);
  }
}
