# pyequake `QuakeQuery` — a Dafny model of its validation and state logic

`pyequake` is a small client for the USGS FDSN event web service. On construction,
`QuakeQuery` downloads the service's WADL description. It folds the description's
`param` elements into a registry `_params` that maps each parameter name to
`{dtype, default[, values]}`. After that it accumulates a string-to-string `query`
map through chainable setters:

- `response_format` sets the response format;
- `occur_between` sets the start and end dates;
- `updated_after` sets an update date.

`get` then sends the map to the query endpoint. The two date setters are wrapped
by the decorator `convert_to_utc_str`. The decorator drops `None` arguments. It
converts each remaining argument with a helper:

- a `datetime` is rendered as `YYYY-MM-DDTHH:MM:SS`;
- a `YYYY-MM-DD` string is checked and passed through unchanged;
- anything else is refused.

This project models that core with pure functions and proves what the code
promises:

| module | file | what it holds |
|---|---|---|
| `Wrappers` | wrappers.dfy | `Option` and `Result` |
| `Calendar` | calendar.dfy | Gregorian calendar dates, `strftime` rendering (`FormatUtc`), and an exact `strptime` for `%Y-%m-%dT%H:%M:%S` (`ParseUtc`) |
| `Values` | values.dfy | the Python values the methods receive (`datetime`, `str`, `None`, other), and the exceptions with their Python classes |
| `Normalizer` | normalizer.dfy | the helper `ToUtcStr`; the wrapper's positional and keyword conversion; CPython's binding of the converted arguments to the wrapped method (`PrepareCall`) |
| `Registry` | registry.dfy | `_params` as a Python dict (insertion order plus mapping), `params` and `get_param_info` |
| `Schema` | schema.dfy | the fold of `parse_endpoint_xml_params` over the stream of attribute maps that `param.iter()` yields |
| `SchemaFindings` | schema_findings.dfy | what the key probed on line 87 does to whole documents |
| `Builder` | builder.dfy | the client as a state machine: `NewClient`, `ResponseFormat`, `OccurBetween`, `UpdatedAfter`, `Get`, and chains of calls (`Run`) |
| `Scenarios` | scenarios.dfy | concrete inputs: the demo's dates, leap days, refused arguments, and a format overridden by `get` |

## How the model is built

- A call that may raise returns `Call(after, raised)`. `after` is the client's
  state once the call has returned or raised, so "a failed call leaves `query`
  untouched" is a proved contract, not a consequence of the encoding.
- Line 87 tests the key `"value"` but writes `"values"`. The step of the fold
  takes the probed key as a parameter. `Schema.AsWrittenProbe` (`"value"`) is the
  code. `Schema.IntendedProbe` (`"values"`) is the evident intent. The client
  (`Builder.NewClient`) is built with the code as written.
- The fold's current `name` is an `Option<string>` carried across param elements,
  as the Python function-scope variable is. An unnamed element carrying `value`
  read before any name is bound is an `UnboundLocalError`. An unnamed element
  without `value` is a KeyError whether or not a name is bound, because the
  `value` attribute is read before `name` is.
- Keyword arguments are a `seq<(string, Value)>`. The model assumes their keys
  are distinct, as the keys of a Python `**kwargs` dict are: a call that repeats
  a keyword is refused by Python at the call site and never reaches the
  wrapper. For a list that does repeat a key, `Normalizer.Lookup` uses the
  first entry, and no contract is claimed about that case.
- `_params` is a `Registry(order, entries)`. A new key goes to the end of
  `order`; overwriting an existing key keeps its position, as a Python dict does.
- The decorator's call `func(self, *new_args, **new_kwargs)` is modelled by
  `Normalizer.Bind`, in CPython's order:
  1. keyword errors, in keyword order (an unknown name, or a parameter already
     filled positionally);
  2. too many positional arguments;
  3. missing required parameters.

  Before that, the wrapper itself rejects a keyword named `self`. Positional
  arguments are converted first, then keyword arguments. Because `None`
  arguments are dropped before binding, positions shift:
  `occur_between(None, end)` stores `end` as `starttime`
  (`Builder.OccurBetweenNoneStartShifts`).

## Model

| member | source | states |
|---|---|---|
| Calendar.DaysInMonth | pyequake/pyequake.py:27-28 | Every month has 28 to 31 days. February has 29 exactly in Gregorian leap years and 28 otherwise. |
| Calendar.Pad | pyequake/pyequake.py:23-25 | A strftime numeric field is exactly as wide as its directive and made only of digits. |
| Calendar.NumberOfPad | pyequake/pyequake.py:23-28 | Reading back a zero-padded field gives the number that was written, whenever it fits the width. |
| Calendar.ParseUtc | pyequake/pyequake.py:23-28 | strptime with the client's format accepts only text of the exact `YYYY-MM-DDTHH:MM:SS` shape. It yields a date-time with no microseconds. |
| Calendar.FormatRoundTrip | pyequake/pyequake.py:23-25 | Parsing a rendered date-time with the same format gives back the date-time, without its microseconds. |
| Calendar.FormatUtc | pyequake/pyequake.py:23-25 | strftime with the client's format renders every date-time as exactly `YYYY-MM-DDTHH:MM:SS`: digits at every field position and the five separators in place. Its partner `Calendar.FormatRoundTrip` reads the text back to the date-time. |
| Calendar.MidnightSuffix | pyequake/pyequake.py:26-28 | Appending `T00:00:00` and parsing succeeds exactly on `YYYY-MM-DD` text that names a real calendar date. The result is that date at midnight. |
| Calendar.DateTextIsIsoDate | pyequake/pyequake.py:26-28 | Three fields written as `YYYY-MM-DD` form an accepted date string exactly when they form a calendar date (month 1-12, day within the month, leap years counted). |
| Calendar.FormattedIsNotIsoDate | pyequake/pyequake.py:24-28 | A rendered date-time is never an accepted date string. |
| Normalizer.ToUtcStr | pyequake/pyequake.py:17-31 | The helper succeeds exactly on a date-time or an accepted date string. A string comes back unchanged. A date-time comes back as text that parses back to it without its microseconds. Bad date text is a ValueError naming the text; any other type is a TypeError. Every success is a wire-format date. |
| Normalizer.ToUtcStrOnItsOwnOutput | pyequake/pyequake.py:26-31 | The helper is idempotent on accepted strings. A rendered date-time passed back in as a string is refused. |
| Normalizer.DropNoneMembers | pyequake/pyequake.py:37-39 | Filtering keeps exactly the arguments that are not `None`. |
| Normalizer.DropNone | pyequake/pyequake.py:37-39 | The positional filter never yields more arguments than it was given, and none of them is `None`. Its partner `Normalizer.DropNoneMembers` states that every non-`None` argument survives. |
| Normalizer.DropNoneKeywords | pyequake/pyequake.py:40-44 | The keyword filter yields only entries of the call whose value is not `None`. Its partner `Normalizer.DropNoneCommutes` states that it drops exactly the `None` values and keeps the order. |
| Normalizer.ConvertPositional | pyequake/pyequake.py:37-39 | Conversion succeeds iff every argument is `None`, a date-time or an accepted string. On success the i-th result is the helper's value on the i-th non-`None` argument. On failure the error is the one raised by the first refused argument that is not `None`, so the `None` in `(None, "bad")` is skipped and the string's ValueError is raised. |
| Normalizer.FirstRejectedUnique | pyequake/pyequake.py:37-44 | At most one argument is the first refused one that is not `None`, so the failure clauses of the two conversions determine the raised error exactly. |
| Normalizer.NoneArgumentDropped | pyequake/pyequake.py:37-39 | A `None` anywhere among the positional arguments converts to nothing: the call converts exactly as if it had been left out. |
| Normalizer.TrailingNoneDropped | pyequake/pyequake.py:37-39 | For any argument list, a trailing `None` argument contributes nothing. |
| Normalizer.DropNoneCommutes | pyequake/pyequake.py:37-44 | Dropping `None` keyword entries and then taking the values gives the same list as taking the values and then dropping `None`. |
| Normalizer.ConvertKeywords | pyequake/pyequake.py:40-44 | Keyword conversion succeeds iff every value is admissible. The result keeps the keys of the non-`None` entries in order, each with the helper's value. A failure carries the error of the first refused value that is not `None`. |
| Normalizer.ConvertedPositionalAreWireDates | pyequake/pyequake.py:37-39 | Every converted positional argument is a wire-format date. |
| Normalizer.ConvertedKeywordsAreWireDates | pyequake/pyequake.py:40-44 | Every converted keyword value is a wire-format date. |
| Normalizer.FirstKeywordConflict | pyequake/pyequake.py:45 | No conflict is reported exactly when every keyword names a parameter that no positional argument fills. |
| Normalizer.Lookup | pyequake/pyequake.py:45 | A keyword lookup finds nothing exactly when no entry has the key. A hit is the value of an entry with that key. |
| Normalizer.MissingNames | pyequake/pyequake.py:45 | The missing-argument list is empty exactly when every required parameter is bound. |
| Normalizer.Bind | pyequake/pyequake.py:45 | Binding succeeds iff there are no keyword conflicts, no more positionals than parameters, and a keyword for every required parameter past the positionals. Every binding failure is a TypeError. On success the positional values fill the first slots, keywords fill the remaining ones (`None` when absent), and every required slot is filled. |
| Normalizer.BoundAreWireDates | pyequake/pyequake.py:37-45 | Binding passes on only values it was given, so every bound value is a wire-format date. |
| Normalizer.PrepareCall | pyequake/pyequake.py:33-46 | Succeeds iff no keyword is named `self`, every argument is admissible, and the arguments left after dropping `None` bind to the signature. A keyword `self` is a TypeError before anything is converted. A bad positional argument raises its helper error; with the positionals fine, a bad keyword value raises its helper error; any later failure is a binding TypeError. On success parameter i holds the helper's value on the argument supplied for it (the i-th remaining positional, else the remaining keyword naming it), or `None` when nothing was supplied. |
| Normalizer.LookupConverted | pyequake/pyequake.py:40-45 | Looking a parameter up among the converted keywords finds the helper's value on what the same lookup finds among the unconverted ones, and finds nothing exactly when that finds nothing. |
| Normalizer.PreparedSlots | pyequake/pyequake.py:33-46 | Each slot of a prepared call is exactly the helper's value on the argument supplied for it, or `None`. |
| Normalizer.NoneEntryDropped | pyequake/pyequake.py:40-44 | A `None`-valued keyword entry is dropped wherever it stands among the keywords. |
| Normalizer.NoneKeywordDropped | pyequake/pyequake.py:40-45 | A keyword argument passed as `None`, wherever it stands among the other keywords, gives the same call as leaving it out, unless it is named `self`. |
| Normalizer.PreparePositionalOnly | pyequake/pyequake.py:37-45 | With enough positional dates, none of them `None`, and no keywords, parameter i gets the helper's value on argument i, and the parameters after them stay at their `None` default. |
| Normalizer.PrepareCallCongruence | pyequake/pyequake.py:33-46 | The method sees the same arguments whenever the `self` check and both conversions agree. |
| Registry.Put | pyequake/pyequake.py:84-90 | `data[k] = e` keeps the dict invariant and maps `k` to `e`. A new key is appended to the key order. An existing key keeps the order unchanged. |
| Registry.GetParamInfo | pyequake/pyequake.py:97-104 | Succeeds iff the name is a registry key, and then returns exactly that key's entry. Otherwise it is a ValueError carrying the name and the full `params` list. |
| Registry.ParamsListsEachKeyOnce | pyequake/pyequake.py:93-95 | `params` lists every registry key exactly once and nothing else. |
| Registry.Params | pyequake/pyequake.py:93-95 | In a valid registry, `params` names exactly the registry's keys. Its partner `Registry.ParamsListsEachKeyOnce` adds that each is listed once. |
| Schema.AddValue | pyequake/pyequake.py:86-90 | With the key probed as written, `values` is replaced by the new value alone. With the intended key, the new value is appended to the existing list. `dtype` and `default` are untouched either way. |
| Schema.StepWith | pyequake/pyequake.py:69-90 | One element keeps the dict invariant, and keeps the bound name a registry key. |
| Schema.ParseFrom | pyequake/pyequake.py:68-90 | The fold over one element stream keeps that invariant. |
| Schema.ParseParamsFrom | pyequake/pyequake.py:68-90 | The fold over the param elements keeps that invariant. |
| Schema.HeaderStep | pyequake/pyequake.py:71-84 | A named element binds `name` and creates or overwrites its entry: `type` or `"xs:string"`, `default` or `None`, and no `values`. |
| Schema.UnnamedStepErrors | pyequake/pyequake.py:85-90 | An unnamed element without `value` is a KeyError. One with `value` before any name is an UnboundLocalError. Otherwise it succeeds. |
| Schema.StepOutcome | pyequake/pyequake.py:69-90 | One element succeeds exactly when it is named, or carries `value` while a name is bound. A failure is one of those two errors, and a success leaves a name bound. |
| Schema.ParseAppend | pyequake/pyequake.py:68-90 | Folding a concatenation folds the first part and then continues from its state, stopping at the first error. |
| Schema.ParamsAreOneStream | pyequake/pyequake.py:68-69 | Folding param element by param element equals folding the single stream they form, because `name` and `data` carry over between param elements. |
| Schema.ParseSucceedsIffWellFormed | pyequake/pyequake.py:68-90 | The parse succeeds exactly on streams whose unnamed elements all carry `value` and whose first element is named unless a name is already bound. A failure is raised by the first offending element (unnamed, and lacking `value` or preceding every name): a KeyError if it lacks `value`, else an UnboundLocalError. |
| Schema.StepKeepsSingleValues | pyequake/pyequake.py:87-90 | With the code as written, one step never produces a `values` list longer than one. |
| Schema.AsWrittenKeepsSingleValues | pyequake/pyequake.py:87-90 | With the code as written, every `values` list in the registry holds exactly one value after any successful parse. |
| Schema.ValuesOfAt | pyequake/pyequake.py:86-88 | The collected values are the elements' `value` attributes, position by position. |
| Schema.ValueStep | pyequake/pyequake.py:85-90 | A value element rewrites only the bound name's `values`, keeping the name, the key order and every other entry. |
| Schema.ValueRunFrom | pyequake/pyequake.py:85-90 | A run of value elements lands entirely on the bound name's entry. As written it leaves the last value; as intended it leaves all values appended in order. Nothing else changes. |
| Schema.HeaderThenValues | pyequake/pyequake.py:68-90 | A named element followed by value elements leaves its name bound and a fresh entry holding what the probe makes of the values. The name is appended to the key order only if it is new. |
| Schema.OrderStep | pyequake/pyequake.py:84 | Each step keeps the key order equal to the order of first occurrence of the names seen so far. |
| Schema.KeysInFirstOccurrenceOrder | pyequake/pyequake.py:65-91 | After a successful parse, the registry keys are exactly the names in the stream, ordered by first occurrence. |
| Schema.OneParamDocument | pyequake/pyequake.py:61-91 | A document of one param element with value children registers that single name, with what the probe makes of the values. |
| Schema.AttributedValues | pyequake/pyequake.py:68-90 | After any successful parse, the bound `name` is the last name in the stream, and an entry has a `values` list exactly when a value element directly follows the last element carrying its name. |
| Schema.ValuesKeyIffAttributed | pyequake/pyequake.py:84-90 | In the registry the client builds, an entry's dict has the key `values` exactly when a value element follows the last element with that name, before the next named element. |
| Schema.TakeUnnamed | pyequake/pyequake.py:84-90 | The run of value elements belonging to a name: a prefix of what follows the name's element, every element of it unnamed, and followed by a named element unless it is everything that follows. |
| Schema.EntriesFromStream | pyequake/pyequake.py:68-90 | After any successful parse, every entry is determined by the stream: the last element with the entry's name gives its type and default, and the value elements after it, up to the next named element, give `values` as the probe makes of them. |
| Schema.ParseEndpointParams | pyequake/pyequake.py:61-91 | The parse as written fails exactly on ill-formed streams, with the KeyError or UnboundLocalError of the first offending element. Otherwise it yields a valid registry with keys in first-occurrence order and one-element `values` lists. Every entry holds the type (or `xs:string`) and the default (or `None`) of the last element with its name, and `values` is the last value of the value elements after that element, up to the next named element, or absent when there are none. |
| Schema.ParseEndpointParamsIntended | pyequake/pyequake.py:61-91 | The corrected parse fails exactly on ill-formed streams, with the same error. Otherwise it yields a valid registry with keys in first-occurrence order. Every entry holds the type and default of the last element with its name, and `values` lists every value of the value elements after that element, up to the next named element, in document order. |
| SchemaFindings.AsWrittenKeepsLastValue | pyequake/pyequake.py:85-90 | As written, a param with value children records only the last value. Value elements in a later param element still attach to the last name seen. |
| SchemaFindings.IntendedKeepsEveryValue | pyequake/pyequake.py:85-90 | With the intended key, every value child is recorded, in document order. |
| SchemaFindings.DocumentKeepsLastValues | pyequake/pyequake.py:85-90 | For every document the code accepts and every name, as written `values` is only the last value after the name's last header. |
| SchemaFindings.DocumentKeepsEveryValue | pyequake/pyequake.py:85-90 | With the intended key, for every document and every name, `values` lists every value after the name's last header, in document order. |
| SchemaFindings.MinMagnitudeCounterexample | pyequake/pyequake.py:87-90 | `minmagnitude` with value children "1" and "2" is recorded as written with values `["2"]`. |
| SchemaFindings.MinMagnitudeIntended | pyequake/pyequake.py:87-90 | The same document is recorded with values `["1", "2"]` under the intended key. |
| Builder.NewClient | pyequake/pyequake.py:56-59 | Construction succeeds exactly when the schema stream is well formed. A failure raises the KeyError or UnboundLocalError of the first offending element. On success the registry is valid, its keys are the stream's names in first-occurrence order, every `values` list has one element, every entry is the one `Schema.EntriesFromStream` determines from the stream, and the query starts empty. |
| Builder.ResponseFormat | pyequake/pyequake.py:124-133 | A non-string is a TypeError and a string outside the six accepted formats is a ValueError. Neither changes the client. Otherwise only `format` is set, to the given string. |
| Builder.OccurBetween | pyequake/pyequake.py:135-157 | Any conversion or binding error is raised with the client unchanged. On success `starttime` holds the helper's value on the start supplied (the first argument left after dropping `None`, else the `start` keyword). `endtime` is written, with the conversion of the end, exactly when an end other than `None` was supplied; otherwise only `starttime` changes. |
| Builder.UpdatedAfter | pyequake/pyequake.py:159-175 | Any conversion or binding error leaves the client unchanged. On success only `updatedafter` changes, to the helper's value on the date supplied by position or by keyword. |
| Builder.Get | pyequake/pyequake.py:177-179 | `format` is forced to `geojson`, every other key is kept, and the whole query is sent to the query endpoint. |
| Builder.InvokeKeepsManaged | pyequake/pyequake.py:124-178 | No single call adds an unmanaged key, an unvalidated date or an unaccepted format to the query. |
| Builder.RunKeepsManaged | pyequake/pyequake.py:124-178 | Along any chain of calls from a managed query, the query stays managed and the registry never changes. |
| Builder.RunSendsManagedQueries | pyequake/pyequake.py:177-179 | Every request in such a chain goes to the query endpoint with a managed query. |
| Builder.EveryRequestIsGeojson | pyequake/pyequake.py:178 | Whatever format was chosen earlier, every request sent asks for `geojson`. |
| Builder.OccurBetweenStartOnly | pyequake/pyequake.py:154-157 | A single start sets `starttime` to its conversion and writes no `endtime`. |
| Builder.OccurBetweenNoneEnd | pyequake/pyequake.py:37-39 | A positional `None` end behaves exactly like no end. |
| Builder.OccurBetweenNoneEndKeyword | pyequake/pyequake.py:40-44 | `end=None` by keyword behaves exactly like no end. |
| Builder.OccurBetweenBoth | pyequake/pyequake.py:154-157 | A start and an end set both keys to their conversions. |
| Builder.OccurBetweenBadEnd | pyequake/pyequake.py:37-45 | A bad end raises its own error and leaves the query unchanged, even though the start was valid. |
| Builder.OccurBetweenNoneStartShifts | pyequake/pyequake.py:37-45 | A `None` start is dropped, so the end date becomes `starttime` and no `endtime` is written. |
| Builder.OccurBetweenMissingStart | pyequake/pyequake.py:45 | With no start, or only `None`, binding raises a TypeError naming `start` and the query is unchanged. |
| Builder.UpdatedAfterSetsOnlyItsKey | pyequake/pyequake.py:174-175 | A single date sets `updatedafter` to its conversion and nothing else. |
| Builder.OccurBetweenStartKeyword | pyequake/pyequake.py:135-157 | `occur_between(start=x)` sets `starttime` to the conversion of `x` and writes no `endtime`. |
| Builder.OccurBetweenEndKeyword | pyequake/pyequake.py:135-157 | `occur_between(x, end=y)` sets `starttime` and `endtime` to the conversions of `x` and `y`. |
| Builder.UpdatedAfterKeyword | pyequake/pyequake.py:159-175 | `updated_after(updated_after=x)` sets `updatedafter` to the conversion of `x`. |
| Builder.OccurBetweenStartTwice | pyequake/pyequake.py:45 | `occur_between(x, start=y)` is a TypeError for a start given twice, and the query is unchanged. |
| Builder.OccurBetweenTooMany | pyequake/pyequake.py:45 | Three positional dates are a TypeError for too many arguments, and the query is unchanged. |
| Scenarios.Accepts2021_11_12 | pyequake/pyequake.py:26-31 | "2021-11-12" is accepted unchanged. |
| Scenarios.Accepts2021_11_13 | pyequake/pyequake.py:26-31 | "2021-11-13" is accepted unchanged. |
| Scenarios.Accepts2020_02_29 | pyequake/pyequake.py:26-31 | The leap day 2020-02-29 is accepted. |
| Scenarios.Rejects2021_02_29 | pyequake/pyequake.py:26-28 | 2021-02-29 is a ValueError. |
| Scenarios.Rejects1900_02_29 | pyequake/pyequake.py:26-28 | 1900-02-29 is a ValueError, because a century year divisible by 100 but not by 400 is not a leap year. |
| Scenarios.Rejects2021_13_01 | pyequake/pyequake.py:26-28 | A thirteenth month is a ValueError. |
| Scenarios.RendersDemoDateTime | pyequake/pyequake.py:23-25 | `datetime(2021, 11, 12)` renders as "2021-11-12T00:00:00". |
| Scenarios.RefusedArguments | pyequake/pyequake.py:24-30 | A rendered date-time passed as a string is a ValueError. An integer is a TypeError. |
| Scenarios.NoneBeforeRefusedString | pyequake/pyequake.py:37-39 | `(None, "bad")` skips the `None` and raises the ValueError for `"bad"`. |
| Scenarios.ResponseFormatExamples | pyequake/pyequake.py:124-131 | "pdf" and "" are ValueErrors; 42 and `None` are TypeErrors. The client is unchanged in each case. |
| Scenarios.FormatOverriddenOnSend | pyequake/pyequake.py:178 | Choosing csv, then a start date, then sending produces one request, which asks for `geojson` and carries the start date. |
| Scenarios.DemoCall | pyequake/pyequake.py:185 | The demo's `occur_between(datetime(2021, 11, 12), "2021-11-13")` sets `starttime` to "2021-11-12T00:00:00" and `endtime` to "2021-11-13". |

## Code over its own documentation

Where the source's comments and docstrings promise something its code does not
do, the model follows the code:

- Value elements do not accumulate. The comment on line 85 ("values for the
  previous name") and the `append` on line 88 show that a name's values were
  meant to collect into one list. Because line 87 probes `"value"`, each value
  element replaces the list, so `values` holds only the last value (see
  Findings). `Schema.ParseEndpointParamsIntended` is the collecting behaviour.
- The docstring of the helper (lines 19-21) says it converts a `YYYY-MM-DD`
  string to the UTC format. The code only checks the string, by appending
  midnight and parsing it (lines 26-28), and then returns it unchanged (line 31).
  The model follows the code: `Normalizer.ToUtcStr` returns an accepted string
  as it was given, and `Scenarios.Accepts2021_11_12` shows it on the demo date.
- The docstring of `updated_after` (lines 170-172) promises a ValueError when
  the argument is neither a `datetime` nor a string. The helper raises a
  TypeError for that (line 30), and the model does too (`Normalizer.ToUtcStr`).
- The docstring of `response_format` (lines 121-122) lists only ValueError. A
  non-string format is a TypeError (lines 124-125), as `Builder.ResponseFormat`
  states.
- `response_format` has the default `fmt=""` (line 106), so calling it with no
  argument is a ValueError, because `""` is not an accepted format. The model has
  no separate no-argument form: `Builder.ResponseFormat(c, StrVal(""))` is that
  call, and `Scenarios.ResponseFormatExamples` covers it.

## Left out

- HTTP: `requests.session()`, the schema download (line 66) and `session.get`
  (line 179) are network I/O. The schema document is a parameter of
  `Builder.NewClient`. `get` is modelled by the request it would send, and the
  response object is not modelled.
- XML tokenising: `ET.fromstring` and `root.iter` over the WADL namespace
  (lines 67-68) are library code. A document is given as the sequence of param
  elements, each being the sequence of attribute maps that `param.iter()`
  yields (the element itself, then its descendants in document order).
- Calendar.ParseUtc: CPython's `strptime` (its `_strptime` module) is more
  lenient than the model. It accepts one-digit months, days, hours, minutes and
  seconds. A day may also be a space followed by a digit (`%d` matches
  ` [1-9]`). Decimal digits may be non-ASCII, because the patterns use `\d`.
  Literal letters in the format match either case, so a lower-case `t`
  separator is accepted. The year, by contrast, must be exactly four digits, as
  in the model. The model accepts only the exact fixed-width ASCII form, so some
  strings the code accepts are refused here.
- Normalizer.ToUtcStr: for that reason, the date strings it accepts are exactly
  the fixed-width `YYYY-MM-DD` calendar dates. That is a subset of those the code
  accepts, which include "2021-1-5" and "2021-11- 5".
- Builder.RunKeepsManaged: the part of `Managed` that says every date key holds a
  fixed-width wire-format date holds only because of that narrowing. The code
  stores an accepted string unchanged, so "2021-1-5" or "2021-11- 5" can reach
  `query["starttime"]`. The same caveat applies to `Builder.InvokeKeepsManaged`
  and `Builder.RunSendsManagedQueries`.
- Calendar.FormatUtc: `%Y` for years below 1000 is platform-dependent in
  `strftime`. The model always writes four zero-padded digits.
- Time zones: an aware `datetime` is rendered from its own fields by the code,
  with no conversion to UTC. The model's date-time has no time-zone field.
- `cached_property` (line 93): `params` is modelled as a plain accessor over the
  registry's keys. The code computes the list once and then returns the same list
  object on every access. A caller who mutates that list changes what
  `get_param_info` checks against (line 98). For example, after appending a
  name that is not a registry key, `get_param_info` of that name passes the check
  and raises KeyError at line 104 instead of ValueError. Caller-side mutation of
  the returned list is not modelled.
- Exception messages: errors carry the offending values, not the formatted
  message text.
- `Value` conflates other argument types (`int`, `datetime.date`, ...) into
  one case. Subclasses of `str` and `datetime` are not distinguished.
- The `__main__` demo (lines 183-187) is not part of the library.
  `Scenarios.DemoCall` restates its call only as an example.

## Findings

| source | as written | input that shows it | evidently intended | confidence | as-written member | corrected member |
|---|---|---|---|---|---|---|
| pyequake/pyequake.py:87 | `if "value" in data[name]` tests a key the entry never has, so every value element takes the else-branch and replaces `values` with a one-element list | param `minmagnitude` (no type, no default) followed by value elements "1" and "2": the registry records `values == ["2"]` | test `"values"`, so values accumulate in document order: `["1", "2"]` | not executed | SchemaFindings.MinMagnitudeCounterexample | SchemaFindings.MinMagnitudeIntended |

The general statements of both halves are `SchemaFindings.DocumentKeepsLastValues`
(with `Schema.AsWrittenKeepsSingleValues` and, for one-param documents,
`SchemaFindings.AsWrittenKeepsLastValue`) and `SchemaFindings.DocumentKeepsEveryValue`
(with `SchemaFindings.IntendedKeepsEveryValue`), both resting on
`Schema.EntriesFromStream`. Whether the client uses the as-written
fold or the corrected one is decided only by the probe passed to `Schema.StepWith`.
`Builder.NewClient` uses the as-written fold, because it models the client as
the code behaves today.
