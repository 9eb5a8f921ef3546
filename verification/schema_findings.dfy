/** The consequences of the probe on line 87 for whole documents. */
module SchemaFindings {
  import opened Wrappers
  import opened Registry
  import opened Schema

  /** As written, a param followed by value elements records only the last
      value; a value element in a later param element still attaches to the
      name seen last. */
  lemma AsWrittenKeepsLastValue(h: Attrs, vals: seq<Attrs>)
    requires Named(h) && ValueRun(vals)
    ensures ParseEndpointParams([[h] + vals]).Success?
    ensures ParseEndpointParams([[h], vals]) == ParseEndpointParams([[h] + vals])
    ensures ParseEndpointParams([[h] + vals]).value.order == [h["name"]]
    ensures ParseEndpointParams([[h] + vals]).value.entries ==
      map[h["name"] := HeaderEntry(h).(values := if |vals| == 0 then None else Some([vals[|vals| - 1]["value"]]))]
  {
    OneParamDocument(h, vals, AsWrittenProbe);
    assert ParseEndpointParams([[h] + vals]) == Success(ParseParamsFrom(Start, [[h] + vals], AsWrittenProbe).value.data);
    assert [[h], vals][1..] == [vals] && [vals][1..] == [];
    assert Flatten([vals]) == vals + [];
    assert Flatten([[h], vals]) == Flatten([[h] + vals]) by {
      assert Flatten([[h] + vals]) == [h] + vals + [];
    }
    ParamsAreOneStream(Start, [[h] + vals], AsWrittenProbe);
    ParamsAreOneStream(Start, [[h], vals], AsWrittenProbe);
  }

  /** With the intended probe, every value is kept, in document order. */
  lemma IntendedKeepsEveryValue(h: Attrs, vals: seq<Attrs>)
    requires Named(h) && ValueRun(vals)
    ensures ParseEndpointParamsIntended([[h] + vals]).Success?
    ensures ParseEndpointParamsIntended([[h] + vals]).value.entries ==
      map[h["name"] := HeaderEntry(h).(values := if |vals| == 0 then None else Some(ValuesOf(vals)))]
  {
    OneParamDocument(h, vals, IntendedProbe);
    assert ParseEndpointParamsIntended([[h] + vals]) ==
      Success(ParseParamsFrom(Start, [[h] + vals], IntendedProbe).value.data);
    assert Existing(None) + ValuesOf(vals) == ValuesOf(vals);
  }

  /** For every document and every registered name, as written `values` is
      the value of the last value element after the name's last header, or
      absent when that header has none. */
  lemma DocumentKeepsLastValues(doc: seq<seq<Attrs>>)
    requires ParseEndpointParams(doc).Success?
    ensures forall n :: n in ParseEndpointParams(doc).value.entries ==>
      var s := Flatten(doc);
      var h := LastHeader(s, n).value;
      var run := RunAfter(s, h);
      ValueRun(run) &&
      ParseEndpointParams(doc).value.entries[n] ==
        HeaderEntry(s[h]).(values := if |run| == 0 then None else Some([run[|run| - 1]["value"]]))
  {
    forall n | n in ParseEndpointParams(doc).value.entries
      ensures var run := RunAfter(Flatten(doc), LastHeader(Flatten(doc), n).value);
        ValueRun(run) && RunValues(None, run, AsWrittenProbe) == if |run| == 0 then None else Some([run[|run| - 1]["value"]])
    {
    }
  }

  /** With the intended probe, `values` lists the value of every value
      element after the name's last header, in document order. */
  lemma DocumentKeepsEveryValue(doc: seq<seq<Attrs>>)
    requires ParseEndpointParamsIntended(doc).Success?
    ensures forall n :: n in ParseEndpointParamsIntended(doc).value.entries ==>
      var s := Flatten(doc);
      var h := LastHeader(s, n).value;
      var run := RunAfter(s, h);
      ValueRun(run) &&
      ParseEndpointParamsIntended(doc).value.entries[n] ==
        HeaderEntry(s[h]).(values := if |run| == 0 then None else Some(ValuesOf(run)))
  {
    forall n | n in ParseEndpointParamsIntended(doc).value.entries
      ensures var run := RunAfter(Flatten(doc), LastHeader(Flatten(doc), n).value);
        ValueRun(run) && (|run| > 0 ==> Existing(None) + ValuesOf(run) == ValuesOf(run))
    {
    }
  }

  /** `minmagnitude` without type or default, followed by the values "1" and
      "2": the code records ["2"] ... */
  lemma MinMagnitudeCounterexample()
    ensures ParseEndpointParams([[map["name" := "minmagnitude"], map["value" := "1"], map["value" := "2"]]])
      == Success(Registry(["minmagnitude"], map["minmagnitude" := Entry("xs:string", None, Some(["2"]))]))
  {
    var h: Attrs := map["name" := "minmagnitude"];
    var vals: seq<Attrs> := [map["value" := "1"], map["value" := "2"]];
    assert [h] + vals == [map["name" := "minmagnitude"], map["value" := "1"], map["value" := "2"]];
    AsWrittenKeepsLastValue(h, vals);
  }

  /** ... where the intended probe records ["1", "2"]. */
  lemma MinMagnitudeIntended()
    ensures ParseEndpointParamsIntended([[map["name" := "minmagnitude"], map["value" := "1"], map["value" := "2"]]])
      .value.entries["minmagnitude"] == Entry("xs:string", None, Some(["1", "2"]))
  {
    var h: Attrs := map["name" := "minmagnitude"];
    var vals: seq<Attrs> := [map["value" := "1"], map["value" := "2"]];
    assert [h] + vals == [map["name" := "minmagnitude"], map["value" := "1"], map["value" := "2"]];
    IntendedKeepsEveryValue(h, vals);
    assert ValuesOf(vals) == ["1", "2"];
  }
}
