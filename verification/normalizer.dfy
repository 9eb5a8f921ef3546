/** The `convert_to_utc_str` decorator: the per-argument date helper, and the
    wrapper's pre-step that drops `None` arguments, converts every remaining
    one, and only then binds them to the wrapped method's parameters. */
module Normalizer {
  import opened Wrappers
  import opened Calendar
  import opened Values

  /** What the helper accepts: a date-time, or a `YYYY-MM-DD` calendar date.
      `None` is admissible too, because the wrapper drops it unconverted. */
  predicate Admissible(v: Value) {
    v.NoneVal? || v.DateTimeVal? || (v.StrVal? && IsIsoDate(v.s))
  }

  /** A string the query endpoint receives as a date: a calendar date or a
      full date-time in the wire format. */
  predicate IsWireDate(s: string) {
    IsIsoDate(s) || ParseUtc(s).Some?
  }

  /** `convert_to_utc_str_helper`: a date-time is rendered, a string is checked
      by appending midnight and parsing the full format, and then returned
      unchanged; anything else is a type error. */
  function ToUtcStr(v: Value): (r: Result<string, Error>)
    ensures r.Success? <==> v.DateTimeVal? || (v.StrVal? && IsIsoDate(v.s))
    ensures v.StrVal? && r.Success? ==> r.value == v.s
    ensures v.DateTimeVal? ==> r.Success? && ParseUtc(r.value) == Some(v.d.(microsecond := 0))
    ensures v.StrVal? && !IsIsoDate(v.s) ==> r == Failure(InvalidDate(v.s))
    ensures !v.StrVal? && !v.DateTimeVal? ==> r == Failure(NotDateOrString(v))
    ensures r.Success? ==> IsWireDate(r.value)
  {
    match v
    case DateTimeVal(t) =>
      FormatRoundTrip(t);
      Success(FormatUtc(t))
    case StrVal(s) =>
      MidnightSuffix(s);
      if ParseUtc(s + "T00:00:00").Some? then Success(s) else Failure(InvalidDate(s))
    case _ =>
      Failure(NotDateOrString(v))
  }

  /** A string that the helper accepted is accepted again, unchanged; a
      rendered date-time, however, is refused when passed back in as a string. */
  lemma ToUtcStrOnItsOwnOutput(v: Value)
    requires ToUtcStr(v).Success?
    ensures v.StrVal? ==> ToUtcStr(StrVal(ToUtcStr(v).value)) == ToUtcStr(v)
    ensures v.DateTimeVal? ==> ToUtcStr(StrVal(ToUtcStr(v).value)) == Failure(InvalidDate(FormatUtc(v.d)))
  {
    if v.DateTimeVal? {
      FormattedIsNotIsoDate(v.d);
    }
  }

  // ---- positional arguments ----

  function DropNone(args: seq<Value>): (r: seq<Value>)
    ensures |r| <= |args|
    ensures forall i :: 0 <= i < |r| ==> !r[i].NoneVal?
  {
    if |args| == 0 then []
    else if args[0].NoneVal? then DropNone(args[1..])
    else [args[0]] + DropNone(args[1..])
  }

  /** Dropping keeps exactly the arguments that are not `None`. */
  lemma {:induction false} DropNoneMembers(args: seq<Value>)
    ensures forall v :: v in DropNone(args) <==> v in args && !v.NoneVal?
  {
    if |args| > 0 {
      DropNoneMembers(args[1..]);
      assert args == [args[0]] + args[1..];
    }
  }

  /** `args[i]` is the first argument the helper refuses, with error `e`. */
  ghost predicate FirstRejected(args: seq<Value>, i: int, e: Error) {
    && 0 <= i < |args|
    && !args[i].NoneVal? && ToUtcStr(args[i]) == Failure(e)
    && forall j :: 0 <= j < i ==> Admissible(args[j])
  }

  /** At most one argument is the first refused one, so the failure clauses
      below pin the error exactly. */
  lemma FirstRejectedUnique(args: seq<Value>, i: int, e: Error, j: int, e': Error)
    requires FirstRejected(args, i, e) && FirstRejected(args, j, e')
    ensures i == j && e == e'
  {
  }

  lemma FirstRejectedShift(args: seq<Value>, e: Error)
    requires |args| > 0 && Admissible(args[0])
    requires exists i :: FirstRejected(args[1..], i, e)
    ensures exists i :: FirstRejected(args, i, e)
  {
    var i :| FirstRejected(args[1..], i, e);
    assert FirstRejected(args, i + 1, e);
  }

  lemma AdmissibleCons(args: seq<Value>)
    requires |args| > 0
    ensures (forall i :: 0 <= i < |args| ==> Admissible(args[i])) <==>
      Admissible(args[0]) && forall i :: 0 <= i < |args[1..]| ==> Admissible(args[1..][i])
  {
    assert forall i :: 1 <= i < |args| ==> args[i] == args[1..][i - 1];
  }

  /** The wrapper's positional pass: every argument that is not `None` goes
      through the helper, in order, and the first refusal propagates. */
  function ConvertPositional(args: seq<Value>): (r: Result<seq<string>, Error>)
    ensures r.Success? <==> forall i :: 0 <= i < |args| ==> Admissible(args[i])
    ensures r.Success? ==> |r.value| == |DropNone(args)|
    ensures r.Success? ==> forall i :: 0 <= i < |r.value| ==> ToUtcStr(DropNone(args)[i]) == Success(r.value[i])
    ensures r.Failure? ==> exists i :: FirstRejected(args, i, r.error)
  {
    if |args| == 0 then Success([])
    else
      var rest := ConvertPositional(args[1..]);
      AdmissibleCons(args);
      if args[0].NoneVal? then
        if rest.Failure? then
          FirstRejectedShift(args, rest.error);
          rest
        else
          assert DropNone(args) == DropNone(args[1..]);
          rest
      else
        match ToUtcStr(args[0])
        case Failure(e) =>
          assert FirstRejected(args, 0, e);
          Failure(e)
        case Success(s) =>
          if rest.Failure? then
            FirstRejectedShift(args, rest.error);
            rest
          else
            PrependConverted(args, s, rest.value);
            Success([s] + rest.value)
  }

  lemma PrependConverted(args: seq<Value>, s: string, p: seq<string>)
    requires |args| > 0 && !args[0].NoneVal? && ToUtcStr(args[0]) == Success(s)
    requires |p| == |DropNone(args[1..])|
    requires forall i :: 0 <= i < |p| ==> ToUtcStr(DropNone(args[1..])[i]) == Success(p[i])
    ensures |[s] + p| == |DropNone(args)|
    ensures forall i :: 0 <= i < |[s] + p| ==> ToUtcStr(DropNone(args)[i]) == Success(([s] + p)[i])
  {
    var d, r := DropNone(args), DropNone(args[1..]);
    assert d == [args[0]] + r;
    forall i | 0 <= i < |[s] + p|
      ensures ToUtcStr(d[i]) == Success(([s] + p)[i])
    {
      if i > 0 {
        assert d[i] == r[i - 1] && ([s] + p)[i] == p[i - 1];
      }
    }
  }

  /** A `None` anywhere among the positional arguments converts to nothing:
      the call converts exactly as if it had been left out. */
  lemma {:induction false} NoneArgumentDropped(x: seq<Value>, y: seq<Value>)
    ensures ConvertPositional(x + [NoneVal] + y) == ConvertPositional(x + y)
    decreases |x|
  {
    var args, args' := x + [NoneVal] + y, x + y;
    if |x| == 0 {
      assert args[0] == NoneVal && args[1..] == y && args' == y;
    } else {
      assert args[0] == args'[0] == x[0];
      assert args[1..] == x[1..] + [NoneVal] + y && args'[1..] == x[1..] + y;
      NoneArgumentDropped(x[1..], y);
    }
  }

  /** A trailing `None` argument converts to nothing. */
  lemma TrailingNoneDropped(args: seq<Value>)
    ensures ConvertPositional(args + [NoneVal]) == ConvertPositional(args)
  {
    NoneArgumentDropped(args, []);
    assert args + [NoneVal] + [] == args + [NoneVal] && args + [] == args;
  }

  // ---- keyword arguments ----

  function DropNoneKeywords(kw: seq<(string, Value)>): (r: seq<(string, Value)>)
    ensures |r| <= |kw|
    ensures forall i :: 0 <= i < |r| ==> !r[i].1.NoneVal? && r[i] in kw
  {
    if |kw| == 0 then []
    else if kw[0].1.NoneVal? then DropNoneKeywords(kw[1..])
    else [kw[0]] + DropNoneKeywords(kw[1..])
  }

  function KeywordValues<V>(kw: seq<(string, V)>): (r: seq<V>)
    ensures |r| == |kw| && forall i :: 0 <= i < |kw| ==> r[i] == kw[i].1
  {
    seq(|kw|, i requires 0 <= i < |kw| => kw[i].1)
  }

  /** Dropping `None` entries and then forgetting the keys is the same as
      forgetting the keys and then dropping `None` values. */
  lemma {:induction false} DropNoneCommutes(kw: seq<(string, Value)>)
    ensures KeywordValues(DropNoneKeywords(kw)) == DropNone(KeywordValues(kw))
  {
    if |kw| > 0 {
      DropNoneCommutes(kw[1..]);
      assert KeywordValues(kw)[1..] == KeywordValues(kw[1..]);
      if !kw[0].1.NoneVal? {
        assert KeywordValues([kw[0]] + DropNoneKeywords(kw[1..])) == [kw[0].1] + KeywordValues(DropNoneKeywords(kw[1..]));
      }
    }
  }

  /** The wrapper's keyword pass: entries whose value is `None` are dropped,
      the rest keep their keys and get the helper's value, converted in
      keyword order exactly as positional arguments are. */
  function ConvertKeywords(kw: seq<(string, Value)>): (r: Result<seq<(string, string)>, Error>)
    ensures r.Success? <==> forall i :: 0 <= i < |kw| ==> Admissible(kw[i].1)
    ensures r.Success? ==> |r.value| == |DropNoneKeywords(kw)|
    ensures r.Success? ==> forall i :: 0 <= i < |r.value| ==>
      r.value[i].0 == DropNoneKeywords(kw)[i].0 && ToUtcStr(DropNoneKeywords(kw)[i].1) == Success(r.value[i].1)
    ensures r.Failure? ==> exists i :: FirstRejected(KeywordValues(kw), i, r.error)
  {
    match ConvertPositional(KeywordValues(kw))
    case Failure(e) => Failure(e)
    case Success(vs) =>
      var d := DropNoneKeywords(kw);
      DropNoneCommutes(kw);
      assert forall i :: 0 <= i < |d| ==> KeywordValues(d)[i] == d[i].1;
      Success(seq(|d|, i requires 0 <= i < |d| => (d[i].0, vs[i])))
  }

  // ---- binding to the wrapped method's parameters ----

  /** A method's parameters after `self`; the first `required` have no default
      (their default is `None` otherwise). */
  datatype Signature = Signature(names: seq<string>, required: nat)

  predicate ValidSignature(sig: Signature) {
    && sig.required <= |sig.names|
    && "self" !in sig.names
    && forall i, j :: 0 <= i < j < |sig.names| ==> sig.names[i] != sig.names[j]
  }

  function Min(a: int, b: int): int {
    if a <= b then a else b
  }

  /** Whether keyword `k` names no parameter, or one already filled by one of
      the first `npos` positional arguments. */
  function KeywordConflict(names: seq<string>, npos: nat, k: string): Option<CallError> {
    if k !in names then Some(UnexpectedKeyword(k))
    else if k in names[..Min(npos, |names|)] then Some(MultipleValues(k))
    else None
  }

  /** The first keyword the interpreter refuses, in keyword order. */
  function FirstKeywordConflict<V>(names: seq<string>, npos: nat, kw: seq<(string, V)>): (r: Option<CallError>)
    ensures r.None? <==> forall j :: 0 <= j < |kw| ==> KeywordConflict(names, npos, kw[j].0).None?
  {
    if |kw| == 0 then None
    else
      var c := KeywordConflict(names, npos, kw[0].0);
      if c.Some? then c
      else
        assert forall j :: 1 <= j < |kw| ==> kw[j] == kw[1..][j - 1];
        FirstKeywordConflict(names, npos, kw[1..])
  }

  function Lookup<V>(kw: seq<(string, V)>, k: string): (r: Option<V>)
    ensures r.None? <==> forall j :: 0 <= j < |kw| ==> kw[j].0 != k
    ensures r.Some? ==> exists j :: 0 <= j < |kw| && kw[j] == (k, r.value)
  {
    if |kw| == 0 then None
    else if kw[0].0 == k then Some(kw[0].1)
    else
      assert forall j :: 1 <= j < |kw| ==> kw[j] == kw[1..][j - 1];
      Lookup(kw[1..], k)
  }

  function MissingNames(names: seq<string>, bound: seq<Option<string>>): (r: seq<string>)
    requires |bound| == |names|
    ensures r == [] <==> forall i :: 0 <= i < |names| ==> bound[i].Some?
  {
    if |names| == 0 then []
    else (if bound[0].None? then [names[0]] else []) + MissingNames(names[1..], bound[1..])
  }

  /** `npos` positional arguments and the keywords of `kw` can be bound to
      `sig`: every keyword names a parameter no positional argument fills,
      there are no more positionals than parameters, and every required
      parameter past the positionals is given by keyword. */
  predicate Binds<V>(sig: Signature, npos: nat, kw: seq<(string, V)>)
    requires ValidSignature(sig)
  {
    && (forall j :: 0 <= j < |kw| ==> KeywordConflict(sig.names, npos, kw[j].0).None?)
    && npos <= |sig.names|
    && forall i :: npos <= i < sig.required ==> Lookup(kw, sig.names[i]).Some?
  }

  /** Whether a call binds depends only on how many positionals it has and
      on the keys of its keywords, not on their values. */
  lemma BindsSameKeys<V, W>(sig: Signature, npos: nat, kw: seq<(string, V)>, kw': seq<(string, W)>)
    requires ValidSignature(sig)
    requires |kw| == |kw'| && forall j :: 0 <= j < |kw| ==> kw[j].0 == kw'[j].0
    ensures Binds(sig, npos, kw) <==> Binds(sig, npos, kw')
  {
  }

  /** The interpreter binding `func(self, *pos, **kw)`: keyword errors first
      (in keyword order), then too many positionals, then missing required
      parameters, each a TypeError; otherwise every parameter's value, `None`
      for an absent one. */
  function Bind(sig: Signature, pos: seq<string>, kw: seq<(string, string)>): (r: Result<seq<Option<string>>, Error>)
    requires ValidSignature(sig)
    ensures r.Success? <==> Binds(sig, |pos|, kw)
    ensures r.Failure? ==> r.error.BadCall? && ClassOf(r.error) == TypeError
    ensures r.Success? ==> |r.value| == |sig.names|
    ensures r.Success? ==> forall i :: 0 <= i < |pos| ==> r.value[i] == Some(pos[i])
    ensures r.Success? ==> forall i :: |pos| <= i < |sig.names| ==> r.value[i] == Lookup(kw, sig.names[i])
    ensures r.Success? ==> forall i :: 0 <= i < sig.required ==> r.value[i].Some?
  {
    var conflict := FirstKeywordConflict(sig.names, |pos|, kw);
    if conflict.Some? then Failure(BadCall(conflict.value))
    else if |pos| > |sig.names| then Failure(BadCall(TooManyPositional(|sig.names|, |pos|)))
    else
      var bound := seq(|sig.names|, i requires 0 <= i < |sig.names| =>
                     if i < |pos| then Some(pos[i]) else Lookup(kw, sig.names[i]));
      assert forall i :: 0 <= i < |sig.names| ==>
        bound[i] == (if i < |pos| then Some(pos[i]) else Lookup(kw, sig.names[i]));
      var missing := MissingNames(sig.names[..sig.required], bound[..sig.required]);
      assert missing == [] <==> forall i :: 0 <= i < sig.required ==> bound[i].Some? by {
        assert forall i :: 0 <= i < sig.required ==> bound[..sig.required][i] == bound[i];
      }
      if missing != [] then Failure(BadCall(MissingArguments(missing)))
      else Success(bound)
  }

  predicate SelfKeyword<V>(kw: seq<(string, V)>) {
    exists j :: 0 <= j < |kw| && kw[j].0 == "self"
  }

  lemma ConvertedPositionalAreWireDates(pos: seq<Value>)
    requires ConvertPositional(pos).Success?
    ensures forall i :: 0 <= i < |ConvertPositional(pos).value| ==> IsWireDate(ConvertPositional(pos).value[i])
  {
    var p := ConvertPositional(pos).value;
    forall i | 0 <= i < |p| ensures IsWireDate(p[i]) {
      assert ToUtcStr(DropNone(pos)[i]) == Success(p[i]);
    }
  }

  lemma ConvertedKeywordsAreWireDates(kw: seq<(string, Value)>)
    requires ConvertKeywords(kw).Success?
    ensures forall j :: 0 <= j < |ConvertKeywords(kw).value| ==> IsWireDate(ConvertKeywords(kw).value[j].1)
  {
    var k := ConvertKeywords(kw).value;
    forall j | 0 <= j < |k| ensures IsWireDate(k[j].1) {
      assert ToUtcStr(DropNoneKeywords(kw)[j].1) == Success(k[j].1);
    }
  }

  /** Binding only ever hands the method values it was given. */
  lemma BoundAreWireDates(sig: Signature, pos: seq<string>, kw: seq<(string, string)>)
    requires ValidSignature(sig) && Bind(sig, pos, kw).Success?
    requires forall i :: 0 <= i < |pos| ==> IsWireDate(pos[i])
    requires forall j :: 0 <= j < |kw| ==> IsWireDate(kw[j].1)
    ensures forall i :: 0 <= i < |sig.names| && Bind(sig, pos, kw).value[i].Some? ==>
      IsWireDate(Bind(sig, pos, kw).value[i].value)
  {
    var b := Bind(sig, pos, kw).value;
    forall i | 0 <= i < |sig.names| && b[i].Some? ensures IsWireDate(b[i].value) {
      if i >= |pos| {
        var j :| 0 <= j < |kw| && kw[j] == (sig.names[i], b[i].value);
      }
    }
  }

  /** The argument a call supplies for parameter `i` once the wrapper has
      dropped every `None`: the i-th remaining positional argument, else the
      remaining keyword entry that names the parameter, else nothing. */
  function Supplied(sig: Signature, pos: seq<Value>, kw: seq<(string, Value)>, i: nat): Option<Value>
    requires i < |sig.names|
  {
    var d := DropNone(pos);
    if i < |d| then Some(d[i]) else Lookup(DropNoneKeywords(kw), sig.names[i])
  }

  /** A lookup in the converted keywords finds the helper's value on what
      the same lookup finds in the unconverted ones. */
  lemma {:induction false} LookupConverted(d: seq<(string, Value)>, c: seq<(string, string)>, k: string)
    requires |c| == |d|
    requires forall j :: 0 <= j < |d| ==> c[j].0 == d[j].0 && ToUtcStr(d[j].1) == Success(c[j].1)
    ensures Lookup(c, k).None? <==> Lookup(d, k).None?
    ensures Lookup(c, k).Some? ==> ToUtcStr(Lookup(d, k).value) == Success(Lookup(c, k).value)
  {
    if |d| > 0 && d[0].0 != k {
      assert forall j :: 0 <= j < |d[1..]| ==> c[1..][j] == c[j + 1] && d[1..][j] == d[j + 1];
      LookupConverted(d[1..], c[1..], k);
    }
  }

  /** Each bound slot holds the helper's value on the argument supplied for it. */
  lemma BoundSlots(sig: Signature, pos: seq<Value>, kw: seq<(string, Value)>)
    requires ValidSignature(sig) && ConvertPositional(pos).Success? && ConvertKeywords(kw).Success?
    requires Bind(sig, ConvertPositional(pos).value, ConvertKeywords(kw).value).Success?
    ensures forall i :: 0 <= i < |sig.names| ==>
      var b := Bind(sig, ConvertPositional(pos).value, ConvertKeywords(kw).value).value;
      (b[i].Some? <==> Supplied(sig, pos, kw, i).Some?) &&
      (b[i].Some? ==> ToUtcStr(Supplied(sig, pos, kw, i).value) == Success(b[i].value))
    ensures forall i :: 0 <= i < |sig.names| ==>
      var b := Bind(sig, ConvertPositional(pos).value, ConvertKeywords(kw).value).value;
      b[i].Some? ==> IsWireDate(b[i].value)
  {
    var p, k := ConvertPositional(pos).value, ConvertKeywords(kw).value;
    var b := Bind(sig, p, k).value;
    forall i | 0 <= i < |sig.names|
      ensures (b[i].Some? <==> Supplied(sig, pos, kw, i).Some?) &&
              (b[i].Some? ==> ToUtcStr(Supplied(sig, pos, kw, i).value) == Success(b[i].value))
    {
      if i >= |p| {
        LookupConverted(DropNoneKeywords(kw), k, sig.names[i]);
      }
    }
  }

  /** The whole `func_wrapper` pre-step: the wrapper's own binding (a keyword
      named `self` clashes with the bound instance), then positional and
      keyword conversion, then binding to the wrapped method. */
  function PrepareCall(sig: Signature, pos: seq<Value>, kw: seq<(string, Value)>): (r: Result<seq<Option<string>>, Error>)
    requires ValidSignature(sig)
    ensures r.Success? <==>
      && !SelfKeyword(kw)
      && (forall i :: 0 <= i < |pos| ==> Admissible(pos[i]))
      && (forall j :: 0 <= j < |kw| ==> Admissible(kw[j].1))
      && Binds(sig, |DropNone(pos)|, DropNoneKeywords(kw))
    ensures SelfKeyword(kw) ==> r == Failure(BadCall(MultipleValues("self")))
    ensures !SelfKeyword(kw) && ConvertPositional(pos).Failure? ==> r == Failure(ConvertPositional(pos).error)
    ensures !SelfKeyword(kw) && ConvertPositional(pos).Success? && ConvertKeywords(kw).Failure? ==>
      r == Failure(ConvertKeywords(kw).error)
    ensures r.Failure? && ConvertPositional(pos).Success? && ConvertKeywords(kw).Success? ==>
      r.error.BadCall? && ClassOf(r.error) == TypeError
    ensures r.Success? ==> |r.value| == |sig.names|
    ensures r.Success? ==> forall i :: 0 <= i < |sig.names| ==>
      (r.value[i].Some? <==> Supplied(sig, pos, kw, i).Some?) &&
      (r.value[i].Some? ==> ToUtcStr(Supplied(sig, pos, kw, i).value) == Success(r.value[i].value))
    ensures r.Success? ==> forall i :: 0 <= i < |r.value| && r.value[i].Some? ==> IsWireDate(r.value[i].value)
    ensures r.Success? ==> forall i :: 0 <= i < sig.required ==> r.value[i].Some?
  {
    if SelfKeyword(kw) then Failure(BadCall(MultipleValues("self")))
    else
      match ConvertPositional(pos)
      case Failure(e) => Failure(e)
      case Success(p) =>
        match ConvertKeywords(kw)
        case Failure(e) => Failure(e)
        case Success(k) =>
          BindsSameKeys(sig, |p|, k, DropNoneKeywords(kw));
          var b := Bind(sig, p, k);
          if b.Failure? then b
          else
            BoundSlots(sig, pos, kw);
            b
  }

  /** A prepared call's slots, each as the helper's value on the argument
      supplied for it, or `None` when nothing was supplied. */
  lemma PreparedSlots(sig: Signature, pos: seq<Value>, kw: seq<(string, Value)>)
    requires ValidSignature(sig) && PrepareCall(sig, pos, kw).Success?
    ensures |PrepareCall(sig, pos, kw).value| == |sig.names|
    ensures forall i :: 0 <= i < |sig.names| && Supplied(sig, pos, kw, i).None? ==>
      PrepareCall(sig, pos, kw).value[i] == None
    ensures forall i :: 0 <= i < |sig.names| && Supplied(sig, pos, kw, i).Some? ==>
      ToUtcStr(Supplied(sig, pos, kw, i).value).Success? &&
      PrepareCall(sig, pos, kw).value[i] == Some(ToUtcStr(Supplied(sig, pos, kw, i).value).value)
  {
  }

  lemma {:induction false} DropNoneWithoutNone(args: seq<Value>)
    requires forall i :: 0 <= i < |args| ==> !args[i].NoneVal?
    ensures DropNone(args) == args
  {
    if |args| > 0 {
      assert forall i :: 0 <= i < |args[1..]| ==> args[1..][i] == args[i + 1];
      DropNoneWithoutNone(args[1..]);
    }
  }

  /** A call with enough positional date arguments, none of them `None`, and
      no keywords binds each parameter to its converted argument in order and
      leaves the remaining parameters at their `None` default. */
  lemma PreparePositionalOnly(sig: Signature, pos: seq<Value>)
    requires ValidSignature(sig) && sig.required <= |pos| <= |sig.names|
    requires forall i :: 0 <= i < |pos| ==> Admissible(pos[i]) && !pos[i].NoneVal?
    ensures PrepareCall(sig, pos, []).Success?
    ensures forall i :: 0 <= i < |pos| ==> PrepareCall(sig, pos, []).value[i] == Some(ToUtcStr(pos[i]).value)
    ensures forall i :: |pos| <= i < |sig.names| ==> PrepareCall(sig, pos, []).value[i].None?
  {
    DropNoneWithoutNone(pos);
    var p := ConvertPositional(pos).value;
    var none: seq<(string, Value)> := [];
    var noneConverted: seq<(string, string)> := [];
    assert !SelfKeyword(none);
    assert ConvertKeywords(none) == Success(noneConverted);
    assert forall i :: 0 <= i < |pos| ==> p[i] == ToUtcStr(pos[i]).value;
    assert PrepareCall(sig, pos, none) == Bind(sig, p, noneConverted);
  }

  /** A `None`-valued keyword entry is dropped wherever it stands. */
  lemma {:induction false} NoneEntryDropped(kw1: seq<(string, Value)>, kw2: seq<(string, Value)>, k: string)
    ensures DropNoneKeywords(kw1 + [(k, NoneVal)] + kw2) == DropNoneKeywords(kw1 + kw2)
    decreases |kw1|
  {
    var kw, kw' := kw1 + [(k, NoneVal)] + kw2, kw1 + kw2;
    if |kw1| == 0 {
      assert kw[0] == (k, NoneVal) && kw[1..] == kw2 && kw' == kw2;
    } else {
      assert kw[0] == kw'[0] == kw1[0];
      assert kw[1..] == kw1[1..] + [(k, NoneVal)] + kw2 && kw'[1..] == kw1[1..] + kw2;
      NoneEntryDropped(kw1[1..], kw2, k);
    }
  }

  /** Inserting a keyword other than `self` neither adds nor removes a `self`
      keyword. */
  lemma SelfKeywordInsert<V>(kw1: seq<(string, V)>, kw2: seq<(string, V)>, k: string, v: V)
    requires k != "self"
    ensures SelfKeyword(kw1 + [(k, v)] + kw2) == SelfKeyword(kw1 + kw2)
  {
    var kw, kw' := kw1 + [(k, v)] + kw2, kw1 + kw2;
    if SelfKeyword(kw) {
      var j :| 0 <= j < |kw| && kw[j].0 == "self";
      if j < |kw1| {
        assert kw'[j] == kw[j];
      } else {
        assert kw'[j - 1] == kw[j];
      }
    }
    if SelfKeyword(kw') {
      var j :| 0 <= j < |kw'| && kw'[j].0 == "self";
      if j < |kw1| {
        assert kw[j] == kw'[j];
      } else {
        assert kw[j + 1] == kw'[j];
      }
    }
  }

  /** A keyword argument passed as `None`, wherever it stands among the
      keywords, is the same as leaving it out, unless it is named `self`. */
  lemma NoneKeywordDropped(sig: Signature, pos: seq<Value>,
                           kw1: seq<(string, Value)>, kw2: seq<(string, Value)>, k: string)
    requires ValidSignature(sig) && k != "self"
    ensures PrepareCall(sig, pos, kw1 + [(k, NoneVal)] + kw2) == PrepareCall(sig, pos, kw1 + kw2)
  {
    var kw, kw' := kw1 + [(k, NoneVal)] + kw2, kw1 + kw2;
    assert KeywordValues(kw) == KeywordValues(kw1) + [NoneVal] + KeywordValues(kw2);
    assert KeywordValues(kw') == KeywordValues(kw1) + KeywordValues(kw2);
    NoneArgumentDropped(KeywordValues(kw1), KeywordValues(kw2));
    NoneEntryDropped(kw1, kw2, k);
    assert ConvertKeywords(kw) == ConvertKeywords(kw');
    SelfKeywordInsert(kw1, kw2, k, NoneVal);
    PrepareCallCongruence(sig, pos, kw, pos, kw');
  }

  /** The prepared arguments depend on the call only through the `self`
      check and the two conversions. */
  lemma PrepareCallCongruence(sig: Signature, pos: seq<Value>, kw: seq<(string, Value)>,
                              pos': seq<Value>, kw': seq<(string, Value)>)
    requires ValidSignature(sig)
    requires SelfKeyword(kw) == SelfKeyword(kw')
    requires ConvertPositional(pos) == ConvertPositional(pos')
    requires ConvertKeywords(kw) == ConvertKeywords(kw')
    ensures PrepareCall(sig, pos, kw) == PrepareCall(sig, pos', kw')
  {
  }
}
