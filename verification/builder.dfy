/** `QuakeQuery` as a state machine over its string-to-string `query` map:
    construction from the schema, the chainable setters, and the map effect
    of `get`. The HTTP session is not modelled; `get` yields the request it
    would send. */
module Builder {
  import opened Wrappers
  import opened Values
  import opened Normalizer
  import opened Registry
  import Schema

  type QueryMap = map<string, string>

  /** The client's state: the parsed registry `_params` and the `query` map. */
  datatype Client = Client(params: Registry, query: QueryMap)

  /** The client's state once a method has returned or raised, and what it
      raised; on return the method's value is the client itself. */
  datatype Call = Call(after: Client, raised: Option<Error>)

  /** The GET `get` issues: the URL and the query parameters. */
  datatype Request = Request(after: Client, url: string, sent: QueryMap)

  const EndpointUrl := "https://earthquake.usgs.gov/fdsnws/event/1/"
  const FieldsUrl := EndpointUrl + "application.wadl"
  const QueryUrl := EndpointUrl + "query"

  const AcceptedFormats: seq<string> := ["csv", "geojson", "kml", "quakeml", "text", "xml"]

  const OccurBetweenSignature := Signature(["start", "end"], 1)
  const UpdatedAfterSignature := Signature(["updated_after"], 1)

  /** The keys the date setters write, and every key a setter or `get` writes. */
  const DateKeys: set<string> := {"starttime", "endtime", "updatedafter"}
  const ManagedKeys: set<string> := DateKeys + {"format"}

  /** Keys outside `ks` are present in both maps with the same value, or in neither. */
  ghost predicate OnlyChanged(q: QueryMap, q': QueryMap, ks: set<string>) {
    forall k :: k !in ks ==> (k in q <==> k in q') && (k in q ==> q'[k] == q[k])
  }

  /** `__init__` given the schema document: the registry is parsed eagerly
      and construction fails when the parse does; the query starts empty. */
  function NewClient(doc: seq<seq<Schema.Attrs>>): (r: Result<Client, Error>)
    ensures r.Success? <==> Schema.WellFormedFrom(false, Schema.Flatten(doc))
    ensures r.Failure? ==>
      exists i :: Schema.FirstOffending(false, Schema.Flatten(doc), i) && r.error == Schema.OffendingError(Schema.Flatten(doc)[i])
    ensures r.Success? ==> r.value.query == map[] && Valid(r.value.params)
    ensures r.Success? ==> Schema.SingleValues(r.value.params)
    ensures r.Success? ==> Schema.FirstOccurrenceOrder(Params(r.value.params), Schema.NamesOf(Schema.Flatten(doc)))
    ensures r.Success? ==> forall n :: n in r.value.params.entries ==>
      Schema.EntryFromStream(r.value.params.entries[n], Schema.Flatten(doc), n, Schema.AsWrittenProbe)
  {
    match Schema.ParseEndpointParams(doc)
    case Failure(e) => Failure(e)
    case Success(reg) => Success(Client(reg, map[]))
  }

  /** `response_format`: a non-string is a TypeError, a string outside the
      six accepted formats a ValueError, and neither touches the query;
      otherwise only `format` is set. */
  function ResponseFormat(c: Client, fmt: Value): (r: Call)
    ensures r.raised.Some? ==> r.after == c
    ensures r.raised.None? <==> fmt.StrVal? && fmt.s in AcceptedFormats
    ensures !fmt.StrVal? ==> r.raised == Some(FormatNotString(fmt))
    ensures fmt.StrVal? && fmt.s !in AcceptedFormats ==>
      r.raised == Some(InvalidFormat(fmt.s, AcceptedFormats))
    ensures r.raised.Some? ==> ClassOf(r.raised.value) == (if fmt.StrVal? then ValueError else TypeError)
    ensures r.raised.None? ==>
      && r.after.params == c.params
      && "format" in r.after.query && r.after.query["format"] == fmt.s
      && OnlyChanged(c.query, r.after.query, {"format"})
  {
    if !fmt.StrVal? then Call(c, Some(FormatNotString(fmt)))
    else if fmt.s !in AcceptedFormats then Call(c, Some(InvalidFormat(fmt.s, AcceptedFormats)))
    else Call(c.(query := c.query["format" := fmt.s]), None)
  }

  /** `key` holds the helper's value on the argument `arg`, which was supplied. */
  predicate SetTo(q: QueryMap, key: string, arg: Option<Value>) {
    arg.Some? && key in q && ToUtcStr(arg.value) == Success(q[key])
  }

  /** `occur_between` behind the decorator: every argument is converted and
      bound before the body runs, so any failure leaves the query as it was.
      Otherwise `starttime` holds the conversion of the start supplied, and
      `endtime` is written, with the conversion of the end, exactly when an
      end other than `None` was supplied. */
  function OccurBetween(c: Client, pos: seq<Value>, kw: seq<(string, Value)>): (r: Call)
    ensures r.raised.Some? ==> r.after == c
    ensures r.raised.None? <==> PrepareCall(OccurBetweenSignature, pos, kw).Success?
    ensures r.raised.Some? ==> r.raised.value == PrepareCall(OccurBetweenSignature, pos, kw).error
    ensures r.after.params == c.params
    ensures r.raised.None? ==> SetTo(r.after.query, "starttime", Supplied(OccurBetweenSignature, pos, kw, 0))
    ensures r.raised.None? && Supplied(OccurBetweenSignature, pos, kw, 1).Some? ==>
      SetTo(r.after.query, "endtime", Supplied(OccurBetweenSignature, pos, kw, 1))
    ensures r.raised.None? ==> OnlyChanged(c.query, r.after.query, {"starttime", "endtime"})
    ensures r.raised.None? && Supplied(OccurBetweenSignature, pos, kw, 1).None? ==>
      OnlyChanged(c.query, r.after.query, {"starttime"})
  {
    match PrepareCall(OccurBetweenSignature, pos, kw)
    case Failure(e) => Call(c, Some(e))
    case Success(args) =>
      assert args[0].Some? && (args[1].Some? <==> Supplied(OccurBetweenSignature, pos, kw, 1).Some?);
      var q := c.query["starttime" := args[0].value];
      if args[1].Some? then Call(c.(query := q["endtime" := args[1].value]), None)
      else Call(c.(query := q), None)
  }

  /** `updated_after` behind the decorator: on success only `updatedafter`
      changes, to the conversion of the date supplied; any failure leaves the
      query as it was. */
  function UpdatedAfter(c: Client, pos: seq<Value>, kw: seq<(string, Value)>): (r: Call)
    ensures r.raised.Some? ==> r.after == c
    ensures r.raised.None? <==> PrepareCall(UpdatedAfterSignature, pos, kw).Success?
    ensures r.raised.Some? ==> r.raised.value == PrepareCall(UpdatedAfterSignature, pos, kw).error
    ensures r.after.params == c.params
    ensures r.raised.None? ==> SetTo(r.after.query, "updatedafter", Supplied(UpdatedAfterSignature, pos, kw, 0))
    ensures r.raised.None? ==> OnlyChanged(c.query, r.after.query, {"updatedafter"})
  {
    match PrepareCall(UpdatedAfterSignature, pos, kw)
    case Failure(e) => Call(c, Some(e))
    case Success(args) => Call(c.(query := c.query["updatedafter" := args[0].value]), None)
  }

  /** `get`: `format` is forced to "geojson" whatever was set before, every
      other key is kept, and the whole query goes to the query endpoint. */
  function Get(c: Client): (r: Request)
    ensures r.url == QueryUrl && r.sent == r.after.query && r.after.params == c.params
    ensures "format" in r.sent && r.sent["format"] == "geojson"
    ensures OnlyChanged(c.query, r.sent, {"format"})
  {
    var q := c.query["format" := "geojson"];
    Request(c.(query := q), QueryUrl, q)
  }

  // ---- chains of calls ----

  datatype Op =
    | SetFormat(fmt: Value)
    | SetOccurBetween(pos: seq<Value>, kw: seq<(string, Value)>)
    | SetUpdatedAfter(pos: seq<Value>, kw: seq<(string, Value)>)
    | Send

  /** A chain's outcome: the final state, the exception that ended it (if
      any), and the requests sent along the way. */
  datatype Trace = Trace(after: Client, raised: Option<Error>, requests: seq<Request>)

  function Invoke(c: Client, op: Op): Call {
    match op
    case SetFormat(fmt) => ResponseFormat(c, fmt)
    case SetOccurBetween(pos, kw) => OccurBetween(c, pos, kw)
    case SetUpdatedAfter(pos, kw) => UpdatedAfter(c, pos, kw)
    case Send => Call(Get(c).after, None)
  }

  /** Run the calls in order, stopping at the first exception. */
  function Run(c: Client, ops: seq<Op>): Trace
    decreases |ops|
  {
    if |ops| == 0 then Trace(c, None, [])
    else if ops[0].Send? then
      var g := Get(c);
      var t := Run(g.after, ops[1..]);
      Trace(t.after, t.raised, [g] + t.requests)
    else
      var call := Invoke(c, ops[0]);
      if call.raised.Some? then Trace(call.after, call.raised, [])
      else Run(call.after, ops[1..])
  }

  /** A query only ever holds builder-managed keys, with wire-format dates
      under the date keys and an accepted format. */
  ghost predicate Managed(q: QueryMap) {
    && q.Keys <= ManagedKeys
    && (forall k :: k in q && k in DateKeys ==> IsWireDate(q[k]))
    && ("format" in q ==> q["format"] in AcceptedFormats)
  }

  /** Writing wire-format dates under date keys keeps a query managed. */
  lemma ManagedUpdate(q: QueryMap, q': QueryMap, ks: set<string>)
    requires Managed(q) && ks <= DateKeys && OnlyChanged(q, q', ks)
    requires forall k :: k in ks ==> k in q' && IsWireDate(q'[k])
    ensures Managed(q')
  {
  }

  lemma InvokeKeepsManaged(c: Client, op: Op)
    requires Managed(c.query)
    ensures Managed(Invoke(c, op).after.query)
    ensures Invoke(c, op).after.params == c.params
  {
    match op
    case SetFormat(_) =>
    case SetOccurBetween(pos, kw) =>
      var r := OccurBetween(c, pos, kw);
      if r.raised.None? {
        var q := r.after.query;
        assert IsWireDate(q["starttime"]);
        if Supplied(OccurBetweenSignature, pos, kw, 1).Some? {
          assert IsWireDate(q["endtime"]);
          ManagedUpdate(c.query, q, {"starttime", "endtime"});
        } else {
          ManagedUpdate(c.query, q, {"starttime"});
        }
      }
    case SetUpdatedAfter(pos, kw) =>
      var r := UpdatedAfter(c, pos, kw);
      if r.raised.None? {
        assert IsWireDate(r.after.query["updatedafter"]);
        ManagedUpdate(c.query, r.after.query, {"updatedafter"});
      }
    case Send =>
  }

  /** Starting from a managed query (the empty one after construction), no
      chain of calls ever puts an unmanaged key or an unvalidated value into
      the query, and the registry never changes. */
  lemma {:induction false} RunKeepsManaged(c: Client, ops: seq<Op>)
    requires Managed(c.query)
    ensures Managed(Run(c, ops).after.query)
    ensures Run(c, ops).after.params == c.params
    decreases |ops|
  {
    if |ops| > 0 {
      InvokeKeepsManaged(c, ops[0]);
      if ops[0].Send? {
        RunKeepsManaged(Get(c).after, ops[1..]);
      } else if Invoke(c, ops[0]).raised.None? {
        RunKeepsManaged(Invoke(c, ops[0]).after, ops[1..]);
      }
    }
  }

  /** Every request goes to the query endpoint with a managed query string. */
  ghost predicate SentManaged(rs: seq<Request>) {
    forall i :: 0 <= i < |rs| ==> Managed(rs[i].sent) && rs[i].url == QueryUrl
  }

  lemma SentManagedCons(g: Request, rs: seq<Request>)
    requires Managed(g.sent) && g.url == QueryUrl && SentManaged(rs)
    ensures SentManaged([g] + rs)
  {
    var rs' := [g] + rs;
    forall i | 0 <= i < |rs'| ensures Managed(rs'[i].sent) && rs'[i].url == QueryUrl {
      if i > 0 {
        assert rs'[i] == rs[i - 1];
      }
    }
  }

  /** Every request such a chain sends goes to the query endpoint with a
      managed query string. */
  lemma {:induction false} RunSendsManagedQueries(c: Client, ops: seq<Op>)
    requires Managed(c.query)
    ensures SentManaged(Run(c, ops).requests)
    decreases |ops|
  {
    if |ops| > 0 {
      if ops[0].Send? {
        var g := Get(c);
        InvokeKeepsManaged(c, Send);
        RunSendsManagedQueries(g.after, ops[1..]);
        SentManagedCons(g, Run(g.after, ops[1..]).requests);
      } else {
        var call := Invoke(c, ops[0]);
        if call.raised.None? {
          InvokeKeepsManaged(c, ops[0]);
          RunSendsManagedQueries(call.after, ops[1..]);
        }
      }
    }
  }

  /** Whatever format was chosen, the service is always asked for geojson. */
  lemma {:induction false} EveryRequestIsGeojson(c: Client, ops: seq<Op>)
    ensures forall i :: 0 <= i < |Run(c, ops).requests| ==>
      "format" in Run(c, ops).requests[i].sent && Run(c, ops).requests[i].sent["format"] == "geojson"
    decreases |ops|
  {
    if |ops| > 0 {
      if ops[0].Send? {
        var g := Get(c);
        EveryRequestIsGeojson(g.after, ops[1..]);
        var t := Run(g.after, ops[1..]);
        assert forall i :: 1 <= i < |[g] + t.requests| ==> ([g] + t.requests)[i] == t.requests[i - 1];
      } else {
        var call := Invoke(c, ops[0]);
        if call.raised.None? {
          EveryRequestIsGeojson(call.after, ops[1..]);
        }
      }
    }
  }

  // ---- occur_between and updated_after on the usual argument shapes ----

  /** A single start sets `starttime` to its conversion and writes no `endtime`. */
  lemma OccurBetweenStartOnly(c: Client, start: Value)
    requires Admissible(start) && !start.NoneVal?
    ensures OccurBetween(c, [start], []) ==
      Call(c.(query := c.query["starttime" := ToUtcStr(start).value]), None)
  {
    PreparePositionalOnly(OccurBetweenSignature, [start]);
  }

  /** An explicit positional `None` end is the same as no end. */
  lemma OccurBetweenNoneEnd(c: Client, start: Value)
    ensures OccurBetween(c, [start, NoneVal], []) == OccurBetween(c, [start], [])
  {
    var args: seq<Value> := [start];
    TrailingNoneDropped(args);
    assert args + [NoneVal] == [start, NoneVal];
    PrepareCallCongruence(OccurBetweenSignature, [start, NoneVal], [], [start], []);
  }

  /** So is `end=None` passed by keyword. */
  lemma OccurBetweenNoneEndKeyword(c: Client, start: Value)
    ensures OccurBetween(c, [start], [("end", NoneVal)]) == OccurBetween(c, [start], [])
  {
    var none: seq<(string, Value)> := [];
    NoneKeywordDropped(OccurBetweenSignature, [start], none, none, "end");
    assert none + [("end", NoneVal)] + none == [("end", NoneVal)] && none + none == none;
  }

  /** Start and end both given: both keys are set to their conversions. */
  lemma OccurBetweenBoth(c: Client, start: Value, end: Value)
    requires Admissible(start) && !start.NoneVal? && Admissible(end) && !end.NoneVal?
    ensures OccurBetween(c, [start, end], []) ==
      Call(c.(query := c.query["starttime" := ToUtcStr(start).value]["endtime" := ToUtcStr(end).value]), None)
  {
    PreparePositionalOnly(OccurBetweenSignature, [start, end]);
  }

  /** A bad end raises its own error before anything is written, even though
      the start was fine. */
  lemma OccurBetweenBadEnd(c: Client, start: Value, end: Value)
    requires Admissible(start) && !start.NoneVal? && !Admissible(end)
    ensures OccurBetween(c, [start, end], []) == Call(c, Some(ToUtcStr(end).error))
  {
    assert [start, end][1..] == [end];
    var e := ConvertPositional([start, end]).error;
    var i :| FirstRejected([start, end], i, e);
  }

  /** Dropping a `None` start shifts the end into the start position: the end
      date becomes `starttime` and no `endtime` is written. */
  lemma OccurBetweenNoneStartShifts(c: Client, end: Value)
    requires Admissible(end) && !end.NoneVal?
    ensures OccurBetween(c, [NoneVal, end], []) == OccurBetween(c, [end], [])
    ensures OccurBetween(c, [NoneVal, end], []).after.query == c.query["starttime" := ToUtcStr(end).value]
  {
    assert [NoneVal, end][1..] == [end];
    OccurBetweenStartOnly(c, end);
  }

  /** Without a start (none given, or only `None`) binding fails with a
      TypeError naming `start`, and the query is unchanged. */
  lemma OccurBetweenMissingStart(c: Client)
    ensures OccurBetween(c, [], []) == Call(c, Some(BadCall(MissingArguments(["start"]))))
    ensures OccurBetween(c, [NoneVal], []) == OccurBetween(c, [], [])
  {
    assert [NoneVal][1..] == [];
    var names := OccurBetweenSignature.names;
    var none: seq<(string, string)> := [];
    var bound: seq<Option<string>> := seq(|names|, i requires 0 <= i < |names| => Lookup(none, names[i]));
    assert names[..1] == ["start"] && bound[..1] == [None];
    assert MissingNames(["start"], [None]) == ["start"];
  }

  /** A single date sets `updatedafter` to its conversion and nothing else. */
  lemma UpdatedAfterSetsOnlyItsKey(c: Client, v: Value)
    requires Admissible(v) && !v.NoneVal?
    ensures UpdatedAfter(c, [v], []) ==
      Call(c.(query := c.query["updatedafter" := ToUtcStr(v).value]), None)
  {
    PreparePositionalOnly(UpdatedAfterSignature, [v]);
  }

  // ---- the same setters called by keyword ----

  /** `occur_between(start=x)` sets `starttime` to the conversion of `x` and
      writes no `endtime`. */
  lemma OccurBetweenStartKeyword(c: Client, x: Value)
    requires Admissible(x) && !x.NoneVal?
    ensures OccurBetween(c, [], [("start", x)]) ==
      Call(c.(query := c.query["starttime" := ToUtcStr(x).value]), None)
  {
    var sig, kw := OccurBetweenSignature, [("start", x)];
    assert DropNoneKeywords(kw) == kw;
    assert Lookup(kw, "start") == Some(x);
    assert Binds(sig, 0, kw);
    assert !SelfKeyword(kw);
    PreparedSlots(sig, [], kw);
    assert Supplied(sig, [], kw, 0) == Some(x);
    assert Supplied(sig, [], kw, 1) == None;
  }

  /** `occur_between(x, end=y)` sets both keys to the conversions. */
  lemma OccurBetweenEndKeyword(c: Client, x: Value, y: Value)
    requires Admissible(x) && !x.NoneVal? && Admissible(y) && !y.NoneVal?
    ensures OccurBetween(c, [x], [("end", y)]) ==
      Call(c.(query := c.query["starttime" := ToUtcStr(x).value]["endtime" := ToUtcStr(y).value]), None)
  {
    EndKeywordPrepared(x, y);
  }

  lemma EndKeywordPrepared(x: Value, y: Value)
    requires Admissible(x) && !x.NoneVal? && Admissible(y) && !y.NoneVal?
    ensures PrepareCall(OccurBetweenSignature, [x], [("end", y)]).Success?
    ensures PrepareCall(OccurBetweenSignature, [x], [("end", y)]).value[0] == Some(ToUtcStr(x).value)
    ensures PrepareCall(OccurBetweenSignature, [x], [("end", y)]).value[1] == Some(ToUtcStr(y).value)
  {
    var sig, kw := OccurBetweenSignature, [("end", y)];
    assert DropNoneKeywords(kw) == kw;
    DropNoneWithoutNone([x]);
    assert sig.names[..1] == ["start"];
    assert Binds(sig, 1, kw);
    assert !SelfKeyword(kw);
    PreparedSlots(sig, [x], kw);
    assert Supplied(sig, [x], kw, 0) == Some(x);
    assert Supplied(sig, [x], kw, 1) == Some(y);
  }

  /** `updated_after(updated_after=x)` sets `updatedafter` to the conversion of `x`. */
  lemma UpdatedAfterKeyword(c: Client, x: Value)
    requires Admissible(x) && !x.NoneVal?
    ensures UpdatedAfter(c, [], [("updated_after", x)]) ==
      Call(c.(query := c.query["updatedafter" := ToUtcStr(x).value]), None)
  {
    var sig, kw := UpdatedAfterSignature, [("updated_after", x)];
    assert DropNoneKeywords(kw) == kw;
    assert Lookup(kw, "updated_after") == Some(x);
    assert Binds(sig, 0, kw);
    assert !SelfKeyword(kw);
    PreparedSlots(sig, [], kw);
    assert Supplied(sig, [], kw, 0) == Some(x);
  }

  /** A start given both by position and by keyword is a TypeError, and the
      query is unchanged. */
  lemma OccurBetweenStartTwice(c: Client, x: Value, y: Value)
    requires Admissible(x) && !x.NoneVal? && Admissible(y) && !y.NoneVal?
    ensures OccurBetween(c, [x], [("start", y)]) == Call(c, Some(BadCall(MultipleValues("start"))))
  {
    StartTwicePrepared(x, y);
  }

  lemma StartTwicePrepared(x: Value, y: Value)
    requires Admissible(x) && !x.NoneVal? && Admissible(y) && !y.NoneVal?
    ensures PrepareCall(OccurBetweenSignature, [x], [("start", y)]) == Failure(BadCall(MultipleValues("start")))
  {
    var kw := [("start", y)];
    assert DropNone([x]) == [x];
    var k := ConvertKeywords(kw).value;
    assert k[0].0 == "start";
    assert FirstKeywordConflict(OccurBetweenSignature.names, 1, k) == Some(MultipleValues("start"));
  }

  /** Three positional dates are one more than `occur_between` takes: a
      TypeError, and the query is unchanged. */
  lemma OccurBetweenTooMany(c: Client, x: Value, y: Value, z: Value)
    requires Admissible(x) && !x.NoneVal? && Admissible(y) && !y.NoneVal? && Admissible(z) && !z.NoneVal?
    ensures OccurBetween(c, [x, y, z], []) == Call(c, Some(BadCall(TooManyPositional(2, 3))))
  {
    assert [x, y, z][1..] == [y, z] && [y, z][1..] == [z];
    DropNoneWithoutNone([x, y, z]);
  }
}
