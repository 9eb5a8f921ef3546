/** The parameter registry `_params`: a Python dict from parameter name to a
    small dict `{dtype, default[, values]}`, with the dict's insertion order,
    and the two introspection accessors `params` and `get_param_info`. */
module Registry {
  import opened Wrappers
  import opened Values

  /** One `{"dtype": ..., "default": ...}` entry; `values` is present only
      once a value element has been attributed to the parameter. */
  datatype Entry = Entry(dtype: string, default: Option<string>, values: Option<seq<string>>)

  /** The keys the entry's dict holds. */
  function EntryKeys(e: Entry): (ks: set<string>)
    ensures "values" in ks <==> e.values.Some?
    ensures "dtype" in ks && "default" in ks
    ensures ks <= {"dtype", "default", "values"}
  {
    {"dtype", "default"} + (if e.values.Some? then {"values"} else {})
  }

  /** A dict as its keys in insertion order plus its mapping. */
  datatype Registry = Registry(order: seq<string>, entries: map<string, Entry>)

  /** The dict invariant: each key listed once, and exactly the mapped keys. */
  ghost predicate Valid(r: Registry) {
    && (forall i, j :: 0 <= i < j < |r.order| ==> r.order[i] != r.order[j])
    && (forall k :: k in r.order <==> k in r.entries)
  }

  const Empty := Registry([], map[])

  /** `data[k] = e`: a new key goes to the end; an existing key keeps its
      position and only its entry is replaced. */
  function Put(r: Registry, k: string, e: Entry): (r': Registry)
    ensures Valid(r) ==> Valid(r')
    ensures r'.entries == r.entries[k := e]
    ensures |r.order| <= |r'.order| <= |r.order| + 1
    ensures r'.order[..|r.order|] == r.order
    ensures k in r.entries ==> r'.order == r.order
  {
    if k in r.entries then Registry(r.order, r.entries[k := e])
    else Registry(r.order + [k], r.entries[k := e])
  }

  /** `params`: the registry's keys, in insertion order. */
  function Params(r: Registry): (ps: seq<string>)
    ensures Valid(r) ==> forall k :: k in ps <==> k in r.entries
  {
    r.order
  }

  /** `get_param_info`: membership is checked against the `params` list, and a
      miss raises a ValueError carrying the list of valid names. */
  function GetParamInfo(r: Registry, p: string): (res: Result<Entry, Error>)
    requires Valid(r)
    ensures res.Success? <==> p in r.entries
    ensures res.Success? ==> res.value == r.entries[p]
    ensures res.Failure? ==> res.error == UnknownParameter(p, Params(r)) && ClassOf(res.error) == ValueError
  {
    if p !in Params(r) then Failure(UnknownParameter(p, Params(r)))
    else Success(r.entries[p])
  }

  /** A list without repeats is as long as the set of its elements. */
  lemma {:induction false} DistinctCardinality(s: seq<string>)
    requires forall i, j :: 0 <= i < j < |s| ==> s[i] != s[j]
    ensures |set k | k in s| == |s|
  {
    if |s| > 0 {
      var t := s[..|s| - 1];
      DistinctCardinality(t);
      assert (set k | k in s) == (set k | k in t) + {s[|s| - 1]};
      assert s[|s| - 1] !in t;
    }
  }

  /** `params` names every key of the registry exactly once. */
  lemma ParamsListsEachKeyOnce(r: Registry)
    requires Valid(r)
    ensures |Params(r)| == |r.entries|
    ensures forall k :: k in Params(r) <==> k in r.entries
    ensures forall i, j :: 0 <= i < j < |Params(r)| ==> Params(r)[i] != Params(r)[j]
  {
    DistinctCardinality(r.order);
    assert (set k | k in r.order) == r.entries.Keys;
  }
}
