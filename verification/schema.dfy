/** `parse_endpoint_xml_params`: the schema document, reduced to the attribute
    maps that `param.iter()` yields for each WADL `param` element (the element
    itself, then its descendants in document order), folded into a registry.

    The loop variable `name` is function-scoped, so the fold carries the most
    recently seen name across element and param boundaries. The key probed
    before attaching a value is a parameter of the step: the code as written
    probes `"value"` (an entry never holds that key), the evidently intended
    probe is `"values"`. */
module Schema {
  import opened Wrappers
  import opened Values
  import opened Registry

  /** An XML element's `attrib` dictionary. */
  type Attrs = map<string, string>

  /** The registry built so far and the current `name`, unbound at the start. */
  datatype ParseState = ParseState(data: Registry, name: Option<string>)

  const Start := ParseState(Empty, None)

  /** The probed key on line 87 as written, and as evidently intended. */
  const AsWrittenProbe := "value"
  const IntendedProbe := "values"

  predicate KnownProbe(probe: string) {
    probe == AsWrittenProbe || probe == IntendedProbe
  }

  /** The current name, once bound, always has an entry. */
  ghost predicate Inv(st: ParseState) {
    Valid(st.data) && (st.name.Some? ==> st.name.value in st.data.entries)
  }

  predicate Named(a: Attrs) {
    "name" in a
  }

  /** The entry a named element creates: its `type` or "xs:string", its
      `default` or None, and no `values` key. */
  function HeaderEntry(a: Attrs): Entry {
    Entry(if "type" in a then a["type"] else "xs:string",
          if "default" in a then Some(a["default"]) else None,
          None)
  }

  function Existing(values: Option<seq<string>>): seq<string> {
    if values.Some? then values.value else []
  }

  /** Lines 87-90: append to `values` when the probed key is present in the
      entry, otherwise start a fresh one-element `values` list. */
  function AddValue(e: Entry, v: string, probe: string): (r: Result<Entry, Error>)
    ensures r.Success? ==> r.value.dtype == e.dtype && r.value.default == e.default
    ensures probe == AsWrittenProbe ==> r == Success(e.(values := Some([v])))
    ensures probe == IntendedProbe ==> r == Success(e.(values := Some(Existing(e.values) + [v])))
  {
    if probe in EntryKeys(e) then
      if e.values.Some? then Success(e.(values := Some(e.values.value + [v])))
      else Failure(MissingKey("values"))
    else
      assert probe == IntendedProbe ==> e.values.None? && Existing(e.values) + [v] == [v];
      Success(e.(values := Some([v])))
  }

  /** One iteration of the inner loop (lines 70-90). */
  function StepWith(st: ParseState, a: Attrs, probe: string): (r: Result<ParseState, Error>)
    ensures Inv(st) && r.Success? ==> Inv(r.value)
  {
    if Named(a) then
      Success(ParseState(Put(st.data, a["name"], HeaderEntry(a)), Some(a["name"])))
    else if "value" !in a then Failure(MissingKey("value"))
    else if st.name.None? then Failure(UnboundName)
    else
      var n := st.name.value;
      if n !in st.data.entries then Failure(MissingKey(n))
      else match AddValue(st.data.entries[n], a["value"], probe)
      case Failure(e) => Failure(e)
      case Success(e') => Success(ParseState(Put(st.data, n, e'), st.name))
  }

  /** A named element binds `name` and creates or overwrites its entry with
      the element's type (or "xs:string") and default (or None) and no
      `values`, so earlier values of a repeated name are discarded; no other
      entry changes. */
  lemma HeaderStep(st: ParseState, a: Attrs, probe: string)
    requires Named(a)
    ensures StepWith(st, a, probe).Success?
    ensures StepWith(st, a, probe).value.name == Some(a["name"])
    ensures StepWith(st, a, probe).value.data.entries ==
      st.data.entries[a["name"] := Entry(if "type" in a then a["type"] else "xs:string",
                                         if "default" in a then Some(a["default"]) else None,
                                         None)]
  {
  }

  /** An unnamed element without `value` is a KeyError even before `name` is
      bound; one with `value` before any name reads the unbound local. */
  lemma UnnamedStepErrors(st: ParseState, a: Attrs, probe: string)
    requires !Named(a)
    ensures "value" !in a ==> StepWith(st, a, probe) == Failure(MissingKey("value"))
    ensures "value" in a && st.name.None? ==> StepWith(st, a, probe) == Failure(UnboundName)
    ensures "value" in a && st.name.Some? && st.name.value in st.data.entries && KnownProbe(probe) ==>
      StepWith(st, a, probe).Success?
  {
  }

  /** The inner loop over one param's elements, continuing from `st`. */
  function ParseFrom(st: ParseState, s: seq<Attrs>, probe: string): (r: Result<ParseState, Error>)
    ensures Inv(st) && r.Success? ==> Inv(r.value)
    decreases |s|
  {
    if |s| == 0 then Success(st)
    else
      match StepWith(st, s[0], probe)
      case Failure(e) => Failure(e)
      case Success(st') => ParseFrom(st', s[1..], probe)
  }

  /** The outer loop over param elements, each contributing its element stream. */
  function ParseParamsFrom(st: ParseState, doc: seq<seq<Attrs>>, probe: string): (r: Result<ParseState, Error>)
    ensures Inv(st) && r.Success? ==> Inv(r.value)
    decreases |doc|
  {
    if |doc| == 0 then Success(st)
    else
      match ParseFrom(st, doc[0], probe)
      case Failure(e) => Failure(e)
      case Success(st') => ParseParamsFrom(st', doc[1..], probe)
  }

  function Flatten(doc: seq<seq<Attrs>>): seq<Attrs> {
    if |doc| == 0 then [] else doc[0] + Flatten(doc[1..])
  }

  // ---- the fold over a concatenation ----

  lemma {:induction false} ParseAppend(st: ParseState, s1: seq<Attrs>, s2: seq<Attrs>, probe: string)
    ensures ParseFrom(st, s1 + s2, probe) ==
      match ParseFrom(st, s1, probe)
      case Failure(e) => Failure(e)
      case Success(m) => ParseFrom(m, s2, probe)
    decreases |s1|
  {
    if |s1| > 0 {
      assert (s1 + s2)[0] == s1[0];
      assert (s1 + s2)[1..] == s1[1..] + s2;
      match StepWith(st, s1[0], probe)
      case Failure(_) =>
      case Success(st') => ParseAppend(st', s1[1..], s2, probe);
    } else {
      assert s1 + s2 == s2;
    }
  }

  /** Param boundaries do not reset anything: parsing the params one after
      another is parsing their concatenated element stream. */
  lemma {:induction false} ParamsAreOneStream(st: ParseState, doc: seq<seq<Attrs>>, probe: string)
    ensures ParseParamsFrom(st, doc, probe) == ParseFrom(st, Flatten(doc), probe)
    decreases |doc|
  {
    if |doc| > 0 {
      ParseAppend(st, doc[0], Flatten(doc[1..]), probe);
      match ParseFrom(st, doc[0], probe)
      case Failure(_) =>
      case Success(m) => ParamsAreOneStream(m, doc[1..], probe);
    }
  }

  // ---- when the parse fails ----

  /** Every unnamed element carries `value`, and the first element is named
      unless a name is already bound. */
  predicate WellFormedFrom(bound: bool, s: seq<Attrs>) {
    && (forall i :: 0 <= i < |s| && !Named(s[i]) ==> "value" in s[i])
    && (bound || |s| == 0 || Named(s[0]))
  }

  lemma WellFormedCons(bound: bool, s: seq<Attrs>)
    requires |s| > 0
    ensures WellFormedFrom(bound, s) <==>
      (Named(s[0]) || ("value" in s[0] && bound)) && WellFormedFrom(true, s[1..])
  {
    assert forall i :: 1 <= i < |s| ==> s[i] == s[1..][i - 1];
  }

  /** One element succeeds exactly when it is named, or carries `value`
      while a name is bound; a success leaves a name bound. */
  lemma StepOutcome(st: ParseState, a: Attrs, probe: string)
    requires Inv(st) && KnownProbe(probe)
    ensures StepWith(st, a, probe).Success? <==> Named(a) || ("value" in a && st.name.Some?)
    ensures StepWith(st, a, probe).Failure? ==> StepWith(st, a, probe).error in {MissingKey("value"), UnboundName}
    ensures StepWith(st, a, probe).Success? ==> StepWith(st, a, probe).value.name.Some?
  {
  }

  /** Element `i` of `s` stops the parse: it is unnamed, and it lacks `value`
      or comes before any name is bound. */
  ghost predicate Offending(bound: bool, s: seq<Attrs>, i: int) {
    && 0 <= i < |s| && !Named(s[i])
    && ("value" !in s[i] || (!bound && forall j :: 0 <= j < i ==> !Named(s[j])))
  }

  /** `i` is the first offending element. */
  ghost predicate FirstOffending(bound: bool, s: seq<Attrs>, i: int) {
    Offending(bound, s, i) && forall j :: 0 <= j < i ==> !Offending(bound, s, j)
  }

  /** The exception an offending element raises: the KeyError of a missing
      `value`, else the UnboundLocalError of reading `name`. */
  function OffendingError(a: Attrs): Error {
    if "value" !in a then MissingKey("value") else UnboundName
  }

  /** Past an element that binds a name or attaches a value, the first
      offending element is the first offending one of the rest. */
  lemma FirstOffendingShift(bound: bool, s: seq<Attrs>, i: int)
    requires |s| > 0 && (Named(s[0]) || ("value" in s[0] && bound))
    requires FirstOffending(true, s[1..], i)
    ensures FirstOffending(bound, s, i + 1)
  {
    assert s[i + 1] == s[1..][i];
    forall j | 0 <= j < i + 1 ensures !Offending(bound, s, j) {
      if j > 0 {
        assert s[j] == s[1..][j - 1];
        assert Offending(bound, s, j) ==> Offending(true, s[1..], j - 1);
      }
    }
  }

  /** The parse succeeds exactly on well-formed streams; otherwise it raises
      the KeyError or the UnboundLocalError of the first offending element. */
  lemma {:induction false} ParseSucceedsIffWellFormed(st: ParseState, s: seq<Attrs>, probe: string)
    requires Inv(st) && KnownProbe(probe)
    ensures ParseFrom(st, s, probe).Success? <==> WellFormedFrom(st.name.Some?, s)
    ensures ParseFrom(st, s, probe).Failure? ==>
      exists i :: FirstOffending(st.name.Some?, s, i) && ParseFrom(st, s, probe).error == OffendingError(s[i])
    decreases |s|
  {
    if |s| > 0 {
      StepOutcome(st, s[0], probe);
      var r := StepWith(st, s[0], probe);
      WellFormedCons(st.name.Some?, s);
      if r.Success? {
        assert ParseFrom(st, s, probe) == ParseFrom(r.value, s[1..], probe);
        ParseSucceedsIffWellFormed(r.value, s[1..], probe);
        if ParseFrom(st, s, probe).Failure? {
          var i :| FirstOffending(true, s[1..], i) && ParseFrom(r.value, s[1..], probe).error == OffendingError(s[1..][i]);
          FirstOffendingShift(st.name.Some?, s, i);
        }
      } else {
        assert ParseFrom(st, s, probe) == Failure(r.error);
        assert FirstOffending(st.name.Some?, s, 0);
      }
    }
  }

  // ---- the last value only ----

  /** Every `values` list holds exactly one value. */
  ghost predicate SingleValues(r: Registry) {
    forall k :: k in r.entries && r.entries[k].values.Some? ==> |r.entries[k].values.value| == 1
  }

  lemma StepKeepsSingleValues(st: ParseState, a: Attrs)
    requires SingleValues(st.data) && StepWith(st, a, AsWrittenProbe).Success?
    ensures SingleValues(StepWith(st, a, AsWrittenProbe).value.data)
  {
  }

  /** With the probe as written, no entry ever holds more than one value. */
  lemma {:induction false} AsWrittenKeepsSingleValues(st: ParseState, s: seq<Attrs>)
    requires Inv(st) && SingleValues(st.data)
    requires ParseFrom(st, s, AsWrittenProbe).Success?
    ensures SingleValues(ParseFrom(st, s, AsWrittenProbe).value.data)
    decreases |s|
  {
    if |s| > 0 {
      var st' := StepWith(st, s[0], AsWrittenProbe).value;
      StepKeepsSingleValues(st, s[0]);
      assert ParseFrom(st, s, AsWrittenProbe) == ParseFrom(st', s[1..], AsWrittenProbe);
      AsWrittenKeepsSingleValues(st', s[1..]);
    }
  }

  /** The values of the elements of `vals`, in order. */
  function ValuesOf(vals: seq<Attrs>): (vs: seq<string>)
    requires forall i :: 0 <= i < |vals| ==> "value" in vals[i]
    ensures |vs| == |vals|
  {
    if |vals| == 0 then [] else [vals[0]["value"]] + ValuesOf(vals[1..])
  }

  lemma {:induction false} ValuesOfAt(vals: seq<Attrs>, i: int)
    requires forall j :: 0 <= j < |vals| ==> "value" in vals[j]
    requires 0 <= i < |vals|
    ensures ValuesOf(vals)[i] == vals[i]["value"]
    decreases i
  {
    if i > 0 {
      ValuesOfAt(vals[1..], i - 1);
    }
  }

  /** A run of value elements: unnamed, each carrying `value`. */
  predicate ValueRun(vals: seq<Attrs>) {
    forall i :: 0 <= i < |vals| ==> !Named(vals[i]) && "value" in vals[i]
  }

  /** What a run of value elements makes of the current entry's `values`:
      as written only the last value survives; as intended all are appended. */
  function RunValues(values: Option<seq<string>>, vals: seq<Attrs>, probe: string): Option<seq<string>>
    requires ValueRun(vals)
  {
    if |vals| == 0 then values
    else if probe == AsWrittenProbe then Some([vals[|vals| - 1]["value"]])
    else Some(Existing(values) + ValuesOf(vals))
  }

  /** One value element, once a name is bound, only rewrites that name's
      `values`. */
  lemma ValueStep(st: ParseState, a: Attrs, probe: string)
    requires st.name.Some? && st.name.value in st.data.entries
    requires !Named(a) && "value" in a && KnownProbe(probe)
    ensures StepWith(st, a, probe).Success?
    ensures StepWith(st, a, probe).value.name == st.name
    ensures StepWith(st, a, probe).value.data.order == st.data.order
    ensures StepWith(st, a, probe).value.data.entries ==
      st.data.entries[st.name.value := st.data.entries[st.name.value].(values :=
        Some(if probe == AsWrittenProbe then [a["value"]]
             else Existing(st.data.entries[st.name.value].values) + [a["value"]]))]
  {
  }

  /** A run of value elements all lands on the current name's entry, leaving
      the name, the key order and every other entry as they were. */
  lemma {:induction false} ValueRunFrom(st: ParseState, vals: seq<Attrs>, probe: string)
    requires st.name.Some? && st.name.value in st.data.entries
    requires ValueRun(vals) && KnownProbe(probe)
    ensures ParseFrom(st, vals, probe).Success?
    ensures ParseFrom(st, vals, probe).value.name == st.name
    ensures ParseFrom(st, vals, probe).value.data.order == st.data.order
    ensures ParseFrom(st, vals, probe).value.data.entries ==
      st.data.entries[st.name.value := st.data.entries[st.name.value].(values :=
        RunValues(st.data.entries[st.name.value].values, vals, probe))]
    decreases |vals|
  {
    if |vals| > 0 {
      var n := st.name.value;
      var e0 := st.data.entries[n];
      var rest := vals[1..];
      RunValuesUnfold(e0.values, vals, probe);
      ValueStep(st, vals[0], probe);
      var st' := StepWith(st, vals[0], probe).value;
      assert ParseFrom(st, vals, probe) == ParseFrom(st', rest, probe);
      ValueRunFrom(st', rest, probe);
      RunValuesUnfold(e0.values, vals, probe);
    }
  }

  /** Peeling the first value element off a run. */
  lemma RunValuesUnfold(values: Option<seq<string>>, vals: seq<Attrs>, probe: string)
    requires ValueRun(vals) && |vals| > 0 && KnownProbe(probe)
    ensures ValueRun(vals[1..])
    ensures RunValues(values, vals, probe) ==
      RunValues(Some(if probe == AsWrittenProbe then [vals[0]["value"]]
                     else Existing(values) + [vals[0]["value"]]), vals[1..], probe)
  {
    assert forall i :: 0 <= i < |vals[1..]| ==> vals[1..][i] == vals[i + 1];
    if probe == AsWrittenProbe {
      LastValueUnfold(values, vals);
    } else {
      AllValuesUnfold(values, vals);
    }
  }

  lemma LastValueUnfold(values: Option<seq<string>>, vals: seq<Attrs>)
    requires ValueRun(vals) && |vals| > 0 && ValueRun(vals[1..])
    ensures RunValues(values, vals, AsWrittenProbe) ==
      RunValues(Some([vals[0]["value"]]), vals[1..], AsWrittenProbe)
  {
    if |vals| > 1 {
      assert vals[1..][|vals[1..]| - 1] == vals[|vals| - 1];
    }
  }

  lemma AllValuesUnfold(values: Option<seq<string>>, vals: seq<Attrs>)
    requires ValueRun(vals) && |vals| > 0 && ValueRun(vals[1..])
    ensures RunValues(values, vals, IntendedProbe) ==
      RunValues(Some(Existing(values) + [vals[0]["value"]]), vals[1..], IntendedProbe)
  {
    var rest, v, e := vals[1..], vals[0]["value"], Existing(values);
    assert IntendedProbe != AsWrittenProbe;
    assert ValuesOf(vals) == [v] + ValuesOf(rest);
    if |rest| == 0 {
      assert [v] + ValuesOf(rest) == [v];
    } else {
      assert Existing(Some(e + [v])) == e + [v];
      assert e + ([v] + ValuesOf(rest)) == (e + [v]) + ValuesOf(rest);
    }
  }

  /** A header followed by a run of value elements leaves the header's name
      bound, its entry holding the header's type and default, and no other
      entry changed; `values` is what the probe makes of the run. */
  lemma HeaderThenValues(st: ParseState, h: Attrs, vals: seq<Attrs>, probe: string)
    requires Named(h) && ValueRun(vals) && KnownProbe(probe)
    ensures ParseFrom(st, [h] + vals, probe).Success?
    ensures ParseFrom(st, [h] + vals, probe).value.name == Some(h["name"])
    ensures ParseFrom(st, [h] + vals, probe).value.data.entries ==
      st.data.entries[h["name"] := HeaderEntry(h).(values := RunValues(None, vals, probe))]
    ensures ParseFrom(st, [h] + vals, probe).value.data.order ==
      if h["name"] in st.data.entries then st.data.order else st.data.order + [h["name"]]
  {
    assert ([h] + vals)[0] == h && ([h] + vals)[1..] == vals;
    var st1 := StepWith(st, h, probe).value;
    assert ParseFrom(st, [h] + vals, probe) == ParseFrom(st1, vals, probe);
    ValueRunFrom(st1, vals, probe);
  }

  // ---- first-insertion order of the keys ----

  /** The names of the named elements, in stream order. */
  function NamesOf(s: seq<Attrs>): seq<string> {
    if |s| == 0 then []
    else NamesOf(s[..|s| - 1]) + (if Named(s[|s| - 1]) then [s[|s| - 1]["name"]] else [])
  }

  function FirstIndex(xs: seq<string>, x: string): (i: nat)
    requires x in xs
    ensures i < |xs| && xs[i] == x && forall j :: 0 <= j < i ==> xs[j] != x
  {
    if xs[0] == x then 0 else 1 + FirstIndex(xs[1..], x)
  }

  /** Keys listed once each, exactly the names seen, ordered by where each
      name first occurs. */
  ghost predicate FirstOccurrenceOrder(order: seq<string>, names: seq<string>) {
    && (forall k :: k in order <==> k in names)
    && (forall i, j :: 0 <= i < j < |order| ==> FirstIndex(names, order[i]) < FirstIndex(names, order[j]))
  }

  lemma FirstIndexSnoc(xs: seq<string>, y: string, x: string)
    requires x in xs
    ensures FirstIndex(xs + [y], x) == FirstIndex(xs, x)
  {
    var i := FirstIndex(xs, x);
    assert (xs + [y])[i] == x;
  }

  /** Appending a name already seen leaves the first-occurrence order intact. */
  lemma OrderSeenName(order: seq<string>, names: seq<string>, n: string)
    requires FirstOccurrenceOrder(order, names) && n in names
    ensures FirstOccurrenceOrder(order, names + [n])
  {
    forall x | x in names ensures FirstIndex(names + [n], x) == FirstIndex(names, x) {
      FirstIndexSnoc(names, n, x);
    }
  }

  /** Appending a new name appends it to the order as well. */
  lemma OrderNewName(order: seq<string>, names: seq<string>, n: string)
    requires FirstOccurrenceOrder(order, names) && n !in names
    ensures FirstOccurrenceOrder(order + [n], names + [n])
  {
    var names' := names + [n];
    var order' := order + [n];
    forall x | x in names ensures FirstIndex(names', x) == FirstIndex(names, x) {
      FirstIndexSnoc(names, n, x);
    }
    assert FirstIndex(names', n) == |names|;
    forall i, j | 0 <= i < j < |order'|
      ensures FirstIndex(names', order'[i]) < FirstIndex(names', order'[j])
    {
      assert order'[i] == order[i];
      if j < |order| {
        assert order'[j] == order[j];
      }
    }
  }

  /** One element keeps the keys in first-occurrence order of the names seen. */
  lemma OrderStep(m: ParseState, a: Attrs, names: seq<string>, probe: string)
    requires Inv(m) && FirstOccurrenceOrder(m.data.order, names)
    requires StepWith(m, a, probe).Success?
    ensures FirstOccurrenceOrder(StepWith(m, a, probe).value.data.order,
                                 names + (if Named(a) then [a["name"]] else []))
  {
    var r := StepWith(m, a, probe).value;
    if Named(a) {
      var n := a["name"];
      if n in m.data.entries {
        assert r.data.order == m.data.order;
        OrderSeenName(m.data.order, names, n);
      } else {
        assert r.data.order == m.data.order + [n];
        OrderNewName(m.data.order, names, n);
      }
    } else {
      assert r.data.order == m.data.order;
      assert names + [] == names;
    }
  }

  /** `params` after the parse: each name once, in the order of first occurrence. */
  lemma {:induction false} KeysInFirstOccurrenceOrder(s: seq<Attrs>, probe: string)
    requires ParseFrom(Start, s, probe).Success?
    ensures FirstOccurrenceOrder(ParseFrom(Start, s, probe).value.data.order, NamesOf(s))
    decreases |s|
  {
    if |s| > 0 {
      var init := s[..|s| - 1];
      var a := s[|s| - 1];
      assert s == init + [a];
      ParseAppend(Start, init, [a], probe);
      KeysInFirstOccurrenceOrder(init, probe);
      var m := ParseFrom(Start, init, probe).value;
      assert ParseFrom(m, [a], probe) == StepWith(m, a, probe);
      OrderStep(m, a, NamesOf(init), probe);
    }
  }

  /** A document of one param element followed by its value elements
      registers that one name, with what the probe makes of the values. */
  lemma OneParamDocument(h: Attrs, vals: seq<Attrs>, probe: string)
    requires Named(h) && ValueRun(vals) && KnownProbe(probe)
    ensures ParseParamsFrom(Start, [[h] + vals], probe).Success?
    ensures ParseParamsFrom(Start, [[h] + vals], probe).value.data ==
      Registry([h["name"]], map[h["name"] := HeaderEntry(h).(values := RunValues(None, vals, probe))])
  {
    var doc := [[h] + vals];
    assert doc[1..] == [];
    assert Flatten(doc) == [h] + vals + [];
    assert [h] + vals + [] == [h] + vals;
    ParamsAreOneStream(Start, doc, probe);
    HeaderThenValues(Start, h, vals, probe);
  }

  // ---- which entries have a `values` key ----

  /** The index of the last element of `s` named `n`, if any. */
  function LastHeader(s: seq<Attrs>, n: string): (r: Option<nat>)
    ensures r.Some? ==> r.value < |s| && Named(s[r.value]) && s[r.value]["name"] == n
  {
    if |s| == 0 then None
    else if Named(s[|s| - 1]) && s[|s| - 1]["name"] == n then Some(|s| - 1)
    else LastHeader(s[..|s| - 1], n)
  }

  /** The name of the last named element of `s`, if any. */
  function LastName(s: seq<Attrs>): Option<string> {
    if |s| == 0 then None
    else if Named(s[|s| - 1]) then Some(s[|s| - 1]["name"])
    else LastName(s[..|s| - 1])
  }

  /** The element right after the last one named `n` is a value element: the
      value elements up to the next named element belong to `n`. */
  ghost predicate Attributed(s: seq<Attrs>, n: string) {
    var h := LastHeader(s, n);
    h.Some? && h.value + 1 < |s| && !Named(s[h.value + 1])
  }

  /** The last name in a stream is named by its last header, and only value
      elements follow that header. */
  lemma {:induction false} LastNameHeader(s: seq<Attrs>, m: string)
    requires LastName(s) == Some(m)
    ensures LastHeader(s, m).Some?
    ensures forall k :: LastHeader(s, m).value < k < |s| ==> !Named(s[k])
    decreases |s|
  {
    var init := s[..|s| - 1];
    if !Named(s[|s| - 1]) {
      LastNameHeader(init, m);
      assert forall k :: 0 <= k < |init| ==> init[k] == s[k];
    }
  }

  lemma LastHeaderSnoc(s: seq<Attrs>, a: Attrs, n: string)
    ensures LastHeader(s + [a], n) == if Named(a) && a["name"] == n then Some(|s|) else LastHeader(s, n)
    ensures LastName(s + [a]) == if Named(a) then Some(a["name"]) else LastName(s)
  {
    assert (s + [a])[..|s|] == s;
  }

  /** The invariant of `AttributedValues` for the prefix `s`. */
  ghost predicate AttributedUpTo(st: ParseState, s: seq<Attrs>) {
    && st.name == LastName(s)
    && forall n :: n in st.data.entries ==> (st.data.entries[n].values.Some? <==> Attributed(s, n))
  }

  /** A named element: its own entry starts without `values`, and no other
      entry's attribution changes. */
  lemma AttributedHeaderStep(st: ParseState, s: seq<Attrs>, a: Attrs, probe: string)
    requires AttributedUpTo(st, s) && Named(a)
    ensures AttributedUpTo(StepWith(st, a, probe).value, s + [a])
  {
    var s' := s + [a];
    var st' := StepWith(st, a, probe).value;
    LastHeaderSnoc(s, a, a["name"]);
    forall n | n in st'.data.entries
      ensures st'.data.entries[n].values.Some? <==> Attributed(s', n)
    {
      LastHeaderSnoc(s, a, n);
      var h := LastHeader(s, n);
      if a["name"] != n && h.Some? && h.value + 1 < |s| {
        assert s'[h.value + 1] == s[h.value + 1];
      }
    }
  }

  /** A value element: the bound name's entry gains `values`, and every
      other entry's attribution stays as it was. */
  lemma AttributedValueStep(st: ParseState, s: seq<Attrs>, a: Attrs, probe: string)
    requires Inv(st) && KnownProbe(probe) && AttributedUpTo(st, s) && !Named(a)
    requires StepWith(st, a, probe).Success?
    ensures AttributedUpTo(StepWith(st, a, probe).value, s + [a])
  {
    var s' := s + [a];
    var st' := StepWith(st, a, probe).value;
    var m := st.name.value;
    ValueStep(st, a, probe);
    LastHeaderSnoc(s, a, m);
    LastNameHeader(s, m);
    forall n | n in st'.data.entries
      ensures st'.data.entries[n].values.Some? <==> Attributed(s', n)
    {
      LastHeaderSnoc(s, a, n);
      var h := LastHeader(s, n);
      if h.Some? && h.value + 1 < |s| {
        assert s'[h.value + 1] == s[h.value + 1];
      }
      if n != m && h.Some? {
        assert h.value != |s| - 1;
      }
    }
  }

  /** After any successful parse, an entry has a `values` key exactly when a
      value element directly follows the last element carrying its name. */
  lemma {:induction false} AttributedValues(s: seq<Attrs>, probe: string)
    requires KnownProbe(probe) && ParseFrom(Start, s, probe).Success?
    ensures AttributedUpTo(ParseFrom(Start, s, probe).value, s)
    decreases |s|
  {
    if |s| > 0 {
      var init := s[..|s| - 1];
      var a := s[|s| - 1];
      assert s == init + [a];
      ParseAppend(Start, init, [a], probe);
      AttributedValues(init, probe);
      var m := ParseFrom(Start, init, probe).value;
      assert ParseFrom(m, [a], probe) == StepWith(m, a, probe);
      if Named(a) {
        AttributedHeaderStep(m, init, a, probe);
      } else {
        AttributedValueStep(m, init, a, probe);
      }
    }
  }

  /** The `values` key of each registered entry, in terms of the document. */
  lemma ValuesKeyIffAttributed(doc: seq<seq<Attrs>>)
    requires ParseEndpointParams(doc).Success?
    ensures forall n :: n in ParseEndpointParams(doc).value.entries ==>
      ("values" in EntryKeys(ParseEndpointParams(doc).value.entries[n]) <==> Attributed(Flatten(doc), n))
  {
    ParamsAreOneStream(Start, doc, AsWrittenProbe);
    AttributedValues(Flatten(doc), AsWrittenProbe);
  }

  // ---- what each entry holds ----

  /** The unnamed elements at the front of `s`, up to its first named one. */
  function TakeUnnamed(s: seq<Attrs>): (r: seq<Attrs>)
    ensures r <= s
    ensures forall i :: 0 <= i < |r| ==> !Named(r[i])
    ensures |r| < |s| ==> Named(s[|r|])
  {
    if |s| == 0 || Named(s[0]) then [] else [s[0]] + TakeUnnamed(s[1..])
  }

  /** The value elements that belong to the named element at index `h`: those
      after it, up to the next named element. */
  function RunAfter(s: seq<Attrs>, h: nat): seq<Attrs>
    requires h < |s|
  {
    TakeUnnamed(s[h + 1..])
  }

  /** Entry `e` is what the stream `s` says name `n` should hold: the last
      element named `n` gives the type and the default, and the value
      elements after it, up to the next named element, give `values` as the
      probe makes of them. */
  ghost predicate EntryFromStream(e: Entry, s: seq<Attrs>, n: string, probe: string) {
    var h := LastHeader(s, n);
    && h.Some?
    && ValueRun(RunAfter(s, h.value))
    && e == HeaderEntry(s[h.value]).(values := RunValues(None, RunAfter(s, h.value), probe))
  }

  /** The invariant of `EntriesFromStream` for the prefix `s`. */
  ghost predicate ContentsUpTo(st: ParseState, s: seq<Attrs>, probe: string) {
    && st.name == LastName(s)
    && forall n :: n in st.data.entries ==> EntryFromStream(st.data.entries[n], s, n, probe)
  }

  /** Appending one element to a stream extends its unnamed front only when
      the whole stream is that front and the element is unnamed. */
  lemma {:induction false} TakeUnnamedSnoc(x: seq<Attrs>, a: Attrs)
    ensures TakeUnnamed(x) == x ==> TakeUnnamed(x + [a]) == x + (if Named(a) then [] else [a])
    ensures TakeUnnamed(x) != x ==> TakeUnnamed(x + [a]) == TakeUnnamed(x)
    decreases |x|
  {
    if |x| == 0 {
      assert x + [a] == [a] && [a][1..] == [];
    } else {
      assert (x + [a])[0] == x[0] && (x + [a])[1..] == x[1..] + [a];
      if !Named(x[0]) {
        TakeUnnamedSnoc(x[1..], a);
        assert TakeUnnamed(x)[1..] == TakeUnnamed(x[1..]);
        assert x == [x[0]] + x[1..];
      }
    }
  }

  /** The run after the last header of the bound name is everything after
      it, and a value element extends it. */
  lemma BoundRunGrows(s: seq<Attrs>, a: Attrs, h: nat)
    requires h < |s| && !Named(a)
    requires forall k :: h < k < |s| ==> !Named(s[k])
    ensures RunAfter(s, h) == s[h + 1..]
    ensures RunAfter(s + [a], h) == RunAfter(s, h) + [a]
  {
    var x := s[h + 1..];
    assert (s + [a])[h + 1..] == x + [a];
    assert forall i :: 0 <= i < |x| ==> x[i] == s[h + 1 + i];
    TakeUnnamedSnoc(x, a);
  }

  /** A run closed by a later named element does not grow. */
  lemma ClosedRunStays(s: seq<Attrs>, a: Attrs, h: nat, k: nat)
    requires h < k < |s| && Named(s[k])
    ensures RunAfter(s + [a], h) == RunAfter(s, h)
  {
    var x := s[h + 1..];
    assert (s + [a])[h + 1..] == x + [a];
    assert x[k - h - 1] == s[k];
    TakeUnnamedSnoc(x, a);
  }

  /** A named element closes every run before it. */
  lemma HeaderClosesRun(s: seq<Attrs>, a: Attrs, h: nat)
    requires h < |s| && Named(a)
    ensures RunAfter(s + [a], h) == RunAfter(s, h)
  {
    var x := s[h + 1..];
    assert (s + [a])[h + 1..] == x + [a];
    assert x + [] == x;
    TakeUnnamedSnoc(x, a);
  }

  /** One more value element at the end of a run. */
  lemma {:induction false} ValuesOfSnoc(vals: seq<Attrs>, a: Attrs)
    requires forall i :: 0 <= i < |vals| ==> "value" in vals[i]
    requires "value" in a
    ensures forall i :: 0 <= i < |vals + [a]| ==> "value" in (vals + [a])[i]
    ensures ValuesOf(vals + [a]) == ValuesOf(vals) + [a["value"]]
    decreases |vals|
  {
    assert forall i :: 0 <= i < |vals + [a]| ==> (vals + [a])[i] == if i < |vals| then vals[i] else a;
    if |vals| == 0 {
      assert vals + [a] == [a] && [a][1..] == [];
    } else {
      assert (vals + [a])[1..] == vals[1..] + [a];
      ValuesOfSnoc(vals[1..], a);
    }
  }

  lemma RunValuesSnoc(run: seq<Attrs>, a: Attrs, probe: string)
    requires ValueRun(run) && !Named(a) && "value" in a && KnownProbe(probe)
    ensures ValueRun(run + [a])
    ensures RunValues(None, run + [a], probe) ==
      Some(if probe == AsWrittenProbe then [a["value"]]
           else Existing(RunValues(None, run, probe)) + [a["value"]])
  {
    var run' := run + [a];
    assert forall i :: 0 <= i < |run'| ==> run'[i] == if i < |run| then run[i] else a;
    assert |run'| != 0 && run'[|run'| - 1] == a;
    if probe == IntendedProbe {
      ValuesOfSnoc(run, a);
      assert IntendedProbe != AsWrittenProbe;
      assert RunValues(None, run', probe) == Some(Existing(None) + ValuesOf(run'));
      assert Existing(None) + ValuesOf(run') == ValuesOf(run) + [a["value"]];
      assert Existing(RunValues(None, run, probe)) == ValuesOf(run) by {
        if |run| == 0 {
          assert ValuesOf(run) == [];
        }
      }
    } else {
      assert RunValues(None, run', probe) == Some([run'[|run'| - 1]["value"]]);
    }
  }

  /** A named element's own entry: its header, with an empty run. */
  lemma NewEntryStep(s: seq<Attrs>, a: Attrs, probe: string)
    requires Named(a)
    ensures EntryFromStream(HeaderEntry(a), s + [a], a["name"], probe)
  {
    var s' := s + [a];
    LastHeaderSnoc(s, a, a["name"]);
    assert s'[|s|] == a && s'[|s| + 1..] == [];
    assert RunAfter(s', |s|) == [];
  }

  /** Any entry other than a named element's own keeps its header and its
      run, which that element closes if it was still open. */
  lemma OtherEntryHeaderStep(s: seq<Attrs>, a: Attrs, n: string, e: Entry, probe: string)
    requires Named(a) && a["name"] != n
    requires EntryFromStream(e, s, n, probe)
    ensures EntryFromStream(e, s + [a], n, probe)
  {
    LastHeaderSnoc(s, a, n);
    var h := LastHeader(s, n).value;
    HeaderClosesRun(s, a, h);
    assert (s + [a])[h] == s[h];
  }

  /** A named element: its own entry starts over from it, with an empty run,
      and every other entry keeps its header and its run. */
  lemma ContentsHeaderStep(st: ParseState, s: seq<Attrs>, a: Attrs, probe: string)
    requires ContentsUpTo(st, s, probe) && Named(a)
    ensures ContentsUpTo(StepWith(st, a, probe).value, s + [a], probe)
  {
    var st' := StepWith(st, a, probe).value;
    HeaderStep(st, a, probe);
    LastHeaderSnoc(s, a, a["name"]);
    forall n | n in st'.data.entries
      ensures EntryFromStream(st'.data.entries[n], s + [a], n, probe)
    {
      if n == a["name"] {
        NewEntryStep(s, a, probe);
      } else {
        OtherEntryHeaderStep(s, a, n, st.data.entries[n], probe);
      }
    }
  }

  /** The bound name's entry after a value element. */
  lemma BoundEntryStep(s: seq<Attrs>, a: Attrs, m: string, e: Entry, probe: string)
    requires KnownProbe(probe) && !Named(a) && "value" in a
    requires EntryFromStream(e, s, m, probe) && LastName(s) == Some(m)
    ensures EntryFromStream(e.(values := Some(if probe == AsWrittenProbe then [a["value"]]
                                              else Existing(e.values) + [a["value"]])), s + [a], m, probe)
  {
    LastHeaderSnoc(s, a, m);
    LastNameHeader(s, m);
    var h := LastHeader(s, m).value;
    assert (s + [a])[h] == s[h];
    BoundRunGrows(s, a, h);
    RunValuesSnoc(RunAfter(s, h), a, probe);
  }

  /** Any other entry is untouched by a value element, and so is its run. */
  lemma OtherEntryStep(s: seq<Attrs>, a: Attrs, n: string, m: string, e: Entry, probe: string)
    requires !Named(a) && n != m
    requires EntryFromStream(e, s, n, probe) && LastName(s) == Some(m)
    ensures EntryFromStream(e, s + [a], n, probe)
  {
    LastHeaderSnoc(s, a, n);
    LastNameHeader(s, m);
    var h, hm := LastHeader(s, n).value, LastHeader(s, m).value;
    assert h < hm;
    assert (s + [a])[h] == s[h];
    ClosedRunStays(s, a, h, hm);
  }

  /** A value element: the bound name's run grows by that element, and every
      other entry's run is closed by a later named element. */
  lemma ContentsValueStep(st: ParseState, s: seq<Attrs>, a: Attrs, probe: string)
    requires Inv(st) && KnownProbe(probe) && ContentsUpTo(st, s, probe) && !Named(a)
    requires StepWith(st, a, probe).Success?
    ensures ContentsUpTo(StepWith(st, a, probe).value, s + [a], probe)
  {
    var st' := StepWith(st, a, probe).value;
    var m := st.name.value;
    ValueStep(st, a, probe);
    LastHeaderSnoc(s, a, m);
    forall n | n in st'.data.entries
      ensures EntryFromStream(st'.data.entries[n], s + [a], n, probe)
    {
      if n == m {
        BoundEntryStep(s, a, m, st.data.entries[m], probe);
      } else {
        OtherEntryStep(s, a, n, m, st.data.entries[n], probe);
      }
    }
  }

  /** After any successful parse, every entry holds what the stream says its
      name should hold: the type and default of the last element with that
      name, and the probe's reading of the value elements after it. */
  lemma {:induction false} EntriesFromStream(s: seq<Attrs>, probe: string)
    requires KnownProbe(probe) && ParseFrom(Start, s, probe).Success?
    ensures ContentsUpTo(ParseFrom(Start, s, probe).value, s, probe)
    decreases |s|
  {
    if |s| > 0 {
      var init := s[..|s| - 1];
      var a := s[|s| - 1];
      assert s == init + [a];
      ParseAppend(Start, init, [a], probe);
      EntriesFromStream(init, probe);
      var m := ParseFrom(Start, init, probe).value;
      assert ParseFrom(m, [a], probe) == StepWith(m, a, probe);
      if Named(a) {
        ContentsHeaderStep(m, init, a, probe);
      } else {
        assert Inv(m);
        ContentsValueStep(m, init, a, probe);
      }
    }
  }

  // ---- the whole parse ----

  /** `parse_endpoint_xml_params` as written: fails exactly on an ill-formed
      element stream, with the error of its first offending element, and otherwise returns a valid registry whose keys are
      the names in first-occurrence order and whose `values` lists each hold
      one value. */
  function ParseEndpointParams(doc: seq<seq<Attrs>>): (r: Result<Registry, Error>)
    ensures r.Success? <==> WellFormedFrom(false, Flatten(doc))
    ensures r.Failure? ==> exists i :: FirstOffending(false, Flatten(doc), i) && r.error == OffendingError(Flatten(doc)[i])
    ensures r.Success? ==> Valid(r.value) && SingleValues(r.value)
    ensures r.Success? ==> FirstOccurrenceOrder(Params(r.value), NamesOf(Flatten(doc)))
    ensures r.Success? ==> forall n :: n in r.value.entries ==>
      EntryFromStream(r.value.entries[n], Flatten(doc), n, AsWrittenProbe)
  {
    ParamsAreOneStream(Start, doc, AsWrittenProbe);
    ParseSucceedsIffWellFormed(Start, Flatten(doc), AsWrittenProbe);
    match ParseParamsFrom(Start, doc, AsWrittenProbe)
    case Failure(e) => Failure(e)
    case Success(st) =>
      AsWrittenKeepsSingleValues(Start, Flatten(doc));
      KeysInFirstOccurrenceOrder(Flatten(doc), AsWrittenProbe);
      EntriesFromStream(Flatten(doc), AsWrittenProbe);
      Success(st.data)
  }

  /** The same parse with the probe the code evidently intends. */
  function ParseEndpointParamsIntended(doc: seq<seq<Attrs>>): (r: Result<Registry, Error>)
    ensures r.Success? <==> WellFormedFrom(false, Flatten(doc))
    ensures r.Failure? ==> exists i :: FirstOffending(false, Flatten(doc), i) && r.error == OffendingError(Flatten(doc)[i])
    ensures r.Success? ==> Valid(r.value)
    ensures r.Success? ==> FirstOccurrenceOrder(Params(r.value), NamesOf(Flatten(doc)))
    ensures r.Success? ==> forall n :: n in r.value.entries ==>
      EntryFromStream(r.value.entries[n], Flatten(doc), n, IntendedProbe)
  {
    ParamsAreOneStream(Start, doc, IntendedProbe);
    ParseSucceedsIffWellFormed(Start, Flatten(doc), IntendedProbe);
    match ParseParamsFrom(Start, doc, IntendedProbe)
    case Failure(e) => Failure(e)
    case Success(st) =>
      KeysInFirstOccurrenceOrder(Flatten(doc), IntendedProbe);
      EntriesFromStream(Flatten(doc), IntendedProbe);
      Success(st.data)
  }
}

